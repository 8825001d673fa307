// The two indexes that the heal status builds over the same disks: by erasure
// set and by server.
module HealIndexes {
  import opened MapWalk
  import opened Sequences

  datatype Disk = Disk(endpoint: string, poolIndex: int, setIndex: int, state: string, healing: bool, usedSpace: nat)

  datatype SetIndex = SetIndex(pool: int, set_: int)

  datatype SetInfo = SetInfo(totalDisks: int, readyDisksCount: int, readyDisksUsedSpace: nat, incapableDisks: int)

  datatype ServerInfo = ServerInfo(pool: int, disks: seq<Disk>)

  datatype Host = Unparsable | Named(host: string)

  const TwoTo64: int := 0x1_0000_0000_0000_0000

  function IndexOf(d: Disk): SetIndex {
    SetIndex(d.poolIndex, d.setIndex)
  }

  predicate Ready(d: Disk) {
    d.state == "ok" && !d.healing
  }

  function CountIn(disks: seq<Disk>, idx: SetIndex): nat {
    if disks == [] then 0
    else CountIn(disks[..|disks| - 1], idx) + if IndexOf(disks[|disks| - 1]) == idx then 1 else 0
  }

  function ReadyIn(disks: seq<Disk>, idx: SetIndex): nat {
    if disks == [] then 0
    else
      var d := disks[|disks| - 1];
      ReadyIn(disks[..|disks| - 1], idx) + if IndexOf(d) == idx && Ready(d) then 1 else 0
  }

  function UsedIn(disks: seq<Disk>, idx: SetIndex): nat {
    if disks == [] then 0
    else
      var d := disks[|disks| - 1];
      UsedIn(disks[..|disks| - 1], idx) + if IndexOf(d) == idx && Ready(d) then d.usedSpace else 0
  }

  lemma {:induction false} ReadyAtMostCount(disks: seq<Disk>, idx: SetIndex)
    ensures ReadyIn(disks, idx) <= CountIn(disks, idx)
  {
    if disks != [] { ReadyAtMostCount(disks[..|disks| - 1], idx); }
  }

  lemma {:induction false} PositiveCount(disks: seq<Disk>, idx: SetIndex)
    ensures CountIn(disks, idx) > 0 <==> exists d :: d in disks && IndexOf(d) == idx
  {
    if disks != [] {
      var init, d := disks[..|disks| - 1], disks[|disks| - 1];
      PositiveCount(init, idx);
      assert disks == init + [d];
    }
  }

  // ---------- the index by erasure set ----------

  /** What `generateSetsStatus` knows of one set. */
  ghost predicate DescribesSet(info: SetInfo, disks: seq<Disk>, idx: SetIndex) {
    && info.totalDisks == CountIn(disks, idx)
    && info.readyDisksCount == ReadyIn(disks, idx)
    && info.incapableDisks == CountIn(disks, idx) - ReadyIn(disks, idx)
    && info.readyDisksUsedSpace == UsedIn(disks, idx) % TwoTo64
  }

  ghost predicate DescribesSets(m: map<SetIndex, SetInfo>, disks: seq<Disk>) {
    && (forall idx :: idx in m <==> CountIn(disks, idx) > 0)
    && (forall idx :: idx in m ==> DescribesSet(m[idx], disks, idx))
  }

  method GenerateSetsStatus(disks: seq<Disk>) returns (m: map<SetIndex, SetInfo>)
    ensures DescribesSets(m, disks)
  {
    m := map[];
    for i := 0 to |disks|
      invariant DescribesSets(m, disks[..i])
    {
      var d := disks[i];
      var idx := IndexOf(d);
      var setSt := SetInfo(0, 0, 0, 0);
      if idx in m { setSt := m[idx]; }
      setSt := setSt.(totalDisks := setSt.totalDisks + 1);
      if d.state != "ok" || d.healing {
        setSt := setSt.(incapableDisks := setSt.incapableDisks + 1);
      } else {
        setSt := setSt.(readyDisksCount := setSt.readyDisksCount + 1,
                        readyDisksUsedSpace := (setSt.readyDisksUsedSpace + d.usedSpace) % TwoTo64);
      }
      CountingKeepsDescription(m, disks, i, setSt);
      m := m[idx := setSt];
    }
    assert disks[..|disks|] == disks;
  }

  lemma CountingKeepsDescription(m: map<SetIndex, SetInfo>, disks: seq<Disk>, i: nat, info: SetInfo)
    requires i < |disks| && DescribesSets(m, disks[..i])
    requires var idx := IndexOf(disks[i]);
             var was := if idx in m then m[idx] else SetInfo(0, 0, 0, 0);
             info == if Ready(disks[i])
                     then SetInfo(was.totalDisks + 1, was.readyDisksCount + 1,
                                  (was.readyDisksUsedSpace + disks[i].usedSpace) % TwoTo64, was.incapableDisks)
                     else was.(totalDisks := was.totalDisks + 1, incapableDisks := was.incapableDisks + 1)
    ensures DescribesSets(m[IndexOf(disks[i]) := info], disks[..i + 1])
  {
    assert disks[..i + 1][..i] == disks[..i];
    EmptyCounts(disks[..i], IndexOf(disks[i]));
  }

  lemma {:induction false} EmptyCounts(disks: seq<Disk>, idx: SetIndex)
    ensures CountIn(disks, idx) == 0 ==> ReadyIn(disks, idx) == 0 && UsedIn(disks, idx) == 0
  {
    if disks != [] { EmptyCounts(disks[..|disks| - 1], idx); }
  }

  // ---------- the index by server ----------

  /** The server of a disk: the host of its endpoint, or a name for its pool when
      there is no host; a disk with an unparsable endpoint belongs to no server. */
  function ServerOf(d: Disk, parse: string -> Host, localName: int -> string): Host {
    match parse(d.endpoint)
    case Unparsable => Unparsable
    case Named(h) => Named(if h == "" then localName(d.poolIndex + 1) else h)
  }

  function DisksOf(disks: seq<Disk>, name: string, parse: string -> Host, localName: int -> string): seq<Disk> {
    if disks == [] then []
    else
      var d := disks[|disks| - 1];
      DisksOf(disks[..|disks| - 1], name, parse, localName)
      + if ServerOf(d, parse, localName) == Named(name) then [d] else []
  }

  ghost predicate DescribesServers(m: map<string, ServerInfo>, disks: seq<Disk>, parse: string -> Host, localName: int -> string) {
    && (forall name :: name in m <==> DisksOf(disks, name, parse, localName) != [])
    && (forall name :: name in m ==>
          m[name].disks == DisksOf(disks, name, parse, localName) && m[name].disks != []
          && m[name].pool == m[name].disks[0].poolIndex)
  }

  method GenerateServersStatus(disks: seq<Disk>, parse: string -> Host, localName: int -> string)
    returns (m: map<string, ServerInfo>)
    ensures DescribesServers(m, disks, parse, localName)
  {
    m := map[];
    for i := 0 to |disks|
      invariant DescribesServers(m, disks[..i], parse, localName)
    {
      var d := disks[i];
      var u := parse(d.endpoint);
      if u.Unparsable? {
        SkippingKeepsDescription(m, disks, i, parse, localName);
        continue;
      }
      var endpoint := u.host;
      if endpoint == "" { endpoint := localName(d.poolIndex + 1); }
      var serverSt := ServerInfo(d.poolIndex, []);
      if endpoint in m { serverSt := m[endpoint]; }
      AddingKeepsDescription(m, disks, i, endpoint, parse, localName);
      serverSt := serverSt.(disks := serverSt.disks + [d]);
      m := m[endpoint := serverSt];
    }
    assert disks[..|disks|] == disks;
  }

  lemma SkippingKeepsDescription(m: map<string, ServerInfo>, disks: seq<Disk>, i: nat, parse: string -> Host, localName: int -> string)
    requires i < |disks| && DescribesServers(m, disks[..i], parse, localName) && ServerOf(disks[i], parse, localName).Unparsable?
    ensures DescribesServers(m, disks[..i + 1], parse, localName)
  {
    OneMoreListed(disks, i, parse, localName);
  }

  lemma AddingKeepsDescription(m: map<string, ServerInfo>, disks: seq<Disk>, i: nat, endpoint: string, parse: string -> Host, localName: int -> string)
    requires i < |disks| && DescribesServers(m, disks[..i], parse, localName)
    requires ServerOf(disks[i], parse, localName) == Named(endpoint)
    ensures var before := if endpoint in m then m[endpoint] else ServerInfo(disks[i].poolIndex, []);
            DescribesServers(m[endpoint := before.(disks := before.disks + [disks[i]])], disks[..i + 1], parse, localName)
  {
    OneMoreListed(disks, i, parse, localName);
    var before := if endpoint in m then m[endpoint] else ServerInfo(disks[i].poolIndex, []);
    assert before.disks == DisksOf(disks[..i], endpoint, parse, localName);
    var after := m[endpoint := before.(disks := before.disks + [disks[i]])];
    forall name ensures name in after <==> DisksOf(disks[..i + 1], name, parse, localName) != [] {
      assert name in m <==> DisksOf(disks[..i], name, parse, localName) != [];
    }
    forall name | name in after
      ensures after[name].disks == DisksOf(disks[..i + 1], name, parse, localName)
      ensures after[name].disks != [] && after[name].pool == after[name].disks[0].poolIndex
    {
      if name != endpoint { assert name in m; }
    }
  }

  lemma OneMoreListed(disks: seq<Disk>, i: nat, parse: string -> Host, localName: int -> string)
    requires i < |disks|
    ensures forall name :: DisksOf(disks[..i + 1], name, parse, localName)
                        == (if ServerOf(disks[i], parse, localName) == Named(name)
                            then DisksOf(disks[..i], name, parse, localName) + [disks[i]]
                            else DisksOf(disks[..i], name, parse, localName))
  {
    assert disks[..i + 1][..i] == disks[..i];
  }

  /** `onlineDisksForSet`. */
  method OnlineDisksForSet(server: ServerInfo, index: SetIndex) returns (setFound: bool, count: int)
    ensures setFound <==> CountIn(server.disks, index) > 0
    ensures count == ReadyIn(server.disks, index)
  {
    setFound, count := false, 0;
    for i := 0 to |server.disks|
      invariant setFound <==> CountIn(server.disks[..i], index) > 0
      invariant count == ReadyIn(server.disks[..i], index)
    {
      var disk := server.disks[i];
      assert server.disks[..i + 1][..i] == server.disks[..i];
      if disk.poolIndex != index.pool || disk.setIndex != index.set_ { continue; }
      setFound := true;
      if disk.state == "ok" && !disk.healing { count := count + 1; }
    }
    assert server.disks[..|server.disks|] == server.disks;
  }

  // ---------- the two indexes agree ----------

  function Online(names: seq<string>, servers: map<string, ServerInfo>, idx: SetIndex): nat
    requires forall x :: x in names ==> x in servers
  {
    if names == [] then 0 else ReadyIn(servers[names[0]].disks, idx) + Online(names[1..], servers, idx)
  }

  /** The ready disks of a set whose server is among `names`. */
  function ReadyOn(names: seq<string>, disks: seq<Disk>, idx: SetIndex, parse: string -> Host, localName: int -> string): nat {
    if names == [] then 0
    else ReadyIn(DisksOf(disks, names[0], parse, localName), idx) + ReadyOn(names[1..], disks, idx, parse, localName)
  }

  lemma {:induction false} OneMoreDisk(names: seq<string>, disks: seq<Disk>, idx: SetIndex, parse: string -> Host, localName: int -> string)
    requires Distinct(names) && disks != []
    ensures var d := disks[|disks| - 1];
            ReadyOn(names, disks, idx, parse, localName)
            == ReadyOn(names, disks[..|disks| - 1], idx, parse, localName)
             + if IndexOf(d) == idx && Ready(d) && ServerOf(d, parse, localName).Named?
                  && ServerOf(d, parse, localName).host in names then 1 else 0
  {
    if names != [] {
      OneMoreDisk(names[1..], disks, idx, parse, localName);
      var d := disks[|disks| - 1];
      var old_ := DisksOf(disks[..|disks| - 1], names[0], parse, localName);
      assert (old_ + [d])[..|old_|] == old_;
      assert old_ + [] == old_;
      assert names[0] !in names[1..];
    }
  }

  ghost predicate AllParse(disks: seq<Disk>, parse: string -> Host) {
    forall d :: d in disks ==> parse(d.endpoint).Named?
  }

  /** Walking distinct servers counts no ready disk of a set twice; walking all of
      them counts every one when every endpoint parses. */
  lemma {:induction false} ReadyOnBounds(names: seq<string>, disks: seq<Disk>, idx: SetIndex, parse: string -> Host, localName: int -> string)
    requires Distinct(names)
    ensures ReadyOn(names, disks, idx, parse, localName) <= ReadyIn(disks, idx)
    ensures AllParse(disks, parse) && (forall d :: d in disks ==> ServerOf(d, parse, localName).host in names)
        ==> ReadyOn(names, disks, idx, parse, localName) == ReadyIn(disks, idx)
  {
    if disks == [] {
      NoDisks(names, idx, parse, localName);
    } else {
      var init := disks[..|disks| - 1];
      assert disks[|disks| - 1] in disks;
      assert forall d :: d in init ==> d in disks;
      OneMoreDisk(names, disks, idx, parse, localName);
      ReadyOnBounds(names, init, idx, parse, localName);
    }
  }

  lemma {:induction false} NoDisks(names: seq<string>, idx: SetIndex, parse: string -> Host, localName: int -> string)
    ensures ReadyOn(names, [], idx, parse, localName) == 0
  {
    if names != [] { NoDisks(names[1..], idx, parse, localName); }
  }

  lemma {:induction false} OnlineIsReadyOn(names: seq<string>, servers: map<string, ServerInfo>, disks: seq<Disk>, idx: SetIndex, parse: string -> Host, localName: int -> string)
    requires DescribesServers(servers, disks, parse, localName)
    requires forall x :: x in names ==> x in servers
    ensures Online(names, servers, idx) == ReadyOn(names, disks, idx, parse, localName)
  {
    if names != [] { OnlineIsReadyOn(names[1..], servers, disks, idx, parse, localName); }
  }

  lemma {:induction false} OwnServerIsListed(disks: seq<Disk>, d: Disk, parse: string -> Host, localName: int -> string)
    requires d in disks && ServerOf(d, parse, localName).Named?
    ensures d in DisksOf(disks, ServerOf(d, parse, localName).host, parse, localName)
  {
    var last := |disks| - 1;
    assert disks == disks[..last] + [disks[last]];
    if d in disks[..last] { OwnServerIsListed(disks[..last], d, parse, localName); }
  }

  /** For any walk over distinct servers the online counts of a set add up to at
      most its ready disks, and over all servers to exactly its ready disks when
      every endpoint parses. */
  lemma IndexesAgree(names: seq<string>, sets: map<SetIndex, SetInfo>, servers: map<string, ServerInfo>,
                     disks: seq<Disk>, idx: SetIndex, parse: string -> Host, localName: int -> string)
    requires DescribesSets(sets, disks) && DescribesServers(servers, disks, parse, localName)
    requires idx in sets && Distinct(names) && forall x :: x in names ==> x in servers
    ensures Online(names, servers, idx) <= sets[idx].readyDisksCount == sets[idx].totalDisks - sets[idx].incapableDisks
    ensures AllParse(disks, parse) && (forall x :: x in servers ==> x in names)
        ==> Online(names, servers, idx) == sets[idx].readyDisksCount
  {
    OnlineIsReadyOn(names, servers, disks, idx, parse, localName);
    if AllParse(disks, parse) && (forall x :: x in servers ==> x in names) {
      forall d | d in disks ensures ServerOf(d, parse, localName).host in names {
        OwnServerIsListed(disks, d, parse, localName);
      }
    }
    ReadyOnBounds(names, disks, idx, parse, localName);
  }

  // ---------- nothing is lost or counted twice ----------

  function TotalOf(disks: seq<Disk>): SetIndex -> int {
    idx => CountIn(disks, idx)
  }

  lemma {:induction false} CountInIsCount(disks: seq<Disk>, idx: SetIndex)
    ensures CountIn(disks, idx) == CountBy(disks, IndexOf, idx)
  {
    if disks != [] { CountInIsCount(disks[..|disks| - 1], idx); }
  }

  /** The sets partition the disks: walking all sets, the totals add up to the number of disks. */
  lemma SetsPartitionDisks(indexes: seq<SetIndex>, disks: seq<Disk>)
    requires AllDifferent(indexes) && forall d :: d in disks ==> IndexOf(d) in indexes
    ensures Sum(indexes, TotalOf(disks)) == |disks|
  {
    forall idx | idx in indexes ensures TotalOf(disks)(idx) == CountOf(disks, IndexOf)(idx) { CountInIsCount(disks, idx); }
    SameSum(indexes, TotalOf(disks), CountOf(disks, IndexOf));
    CountsCover(indexes, disks, IndexOf);
  }

  /** The servers partition the disks that have one: a disk is listed under its
      own server as often as it occurs, and under no other. */
  lemma {:induction false} ServersPartitionDisks(disks: seq<Disk>, name: string, d: Disk, parse: string -> Host, localName: int -> string)
    ensures multiset(DisksOf(disks, name, parse, localName))[d]
         == if ServerOf(d, parse, localName) == Named(name) then multiset(disks)[d] else 0
  {
    if disks != [] {
      var init, last := disks[..|disks| - 1], disks[|disks| - 1];
      assert disks == init + [last];
      ServersPartitionDisks(init, name, d, parse, localName);
    }
  }
}
