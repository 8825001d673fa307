// Exactly when the step from version 6 to version 7 keeps every host and every
// alias, for all orders of walking the maps.
module NamesKept {
  import opened ConfigTypes
  import opened MapWalk
  import opened NamedHosts
  import opened Sequences

  /** The alias still names its host, with the host's own keys and API. */
  ghost predicate AliasKept(named: map<string, HostV7>, hosts: map<string, HostV6>, aliases: map<string, string>, name: string)
    requires name in aliases && aliases[name] in hosts
  {
    name in named && IsEntryOf(named[name], aliases[name], hosts[aliases[name]])
  }

  ghost predicate HostPresent(named: map<string, HostV7>, hosts: map<string, HostV6>, host: string)
    requires host in hosts
  {
    exists name :: name in named && IsEntryOf(named[name], host, hosts[host])
  }

  ghost predicate AllKept(named: map<string, HostV7>, hosts: map<string, HostV6>, aliases: map<string, string>) {
    && (forall name :: name in aliases && aliases[name] in hosts ==> AliasKept(named, hosts, aliases, name))
    && (forall host :: host in hosts ==> HostPresent(named, hosts, host))
  }

  function GenericHosts(hosts: map<string, HostV6>): set<string> {
    set h | h in hosts && Generic(h)
  }

  /** The hosts that the step writes: the named ones and the defaults whose names are free. */
  function Written(order: seq<string>, hosts: map<string, HostV6>, aliases: map<string, string>): map<string, HostV7>
    requires forall x :: x in order ==> x in hosts
  {
    WithDefaults(Named(order, hosts, aliases), DefaultsV7)
  }

  /** A default is the very entry of this host, and its name is no alias of a listed host. */
  ghost predicate Supplied(hosts: map<string, HostV6>, aliases: map<string, string>, host: string)
    requires host in hosts
  {
    exists d :: d in DefaultsV7 && IsEntryOf(DefaultsV7[d], host, hosts[host]) && !(d in aliases && aliases[d] in hosts)
  }

  ghost predicate HasOtherName(hosts: map<string, HostV6>, aliases: map<string, string>, host: string)
    requires host in hosts
  {
    (exists b :: b in aliases && aliases[b] == host) || Supplied(hosts, aliases, host)
  }

  ghost predicate OthersHaveNames(hosts: map<string, HostV6>, aliases: map<string, string>, host: string) {
    forall g :: g in hosts && Generic(g) && g != host ==> HasOtherName(hosts, aliases, g)
  }

  /** No generated name can take this alias: a fixed name belongs to its own host or to
      none, and a numbered name is out of reach, or is the first one in the hands of a
      numbered host. */
  ghost predicate SafeName(hosts: map<string, HostV6>, aliases: map<string, string>, name: string)
    requires name in aliases
  {
    var host := aliases[name];
    && (name == "s3" ==> S3Url !in hosts || host == S3Url)
    && (name == "gcs" ==> GcsUrl !in hosts || host == GcsUrl)
    && (forall k: nat :: name == Cloud(k) && k < |GenericHosts(hosts)| ==> k == 0 && Generic(host))
  }

  /** Nor does the alias take the only name of another host: when it is the first
      numbered name, the others have aliases or are supplied by a default. */
  ghost predicate SafeAlias(hosts: map<string, HostV6>, aliases: map<string, string>, name: string)
    requires name in aliases
  {
    SafeName(hosts, aliases, name) && (name == Cloud(0) && aliases[name] in hosts ==> OthersHaveNames(hosts, aliases, aliases[name]))
  }

  ghost predicate Safe(hosts: map<string, HostV6>, aliases: map<string, string>) {
    forall name :: name in aliases && aliases[name] in hosts ==> SafeAlias(hosts, aliases, name)
  }

  // ---------- counting numbered hosts ----------

  lemma {:induction false} CountIsSize(order: seq<string>, names: set<string>)
    requires IsOrderOf(order, names)
    ensures GenericCount(order) == |set h | h in names && Generic(h)|
  {
    if order == [] {
      assert names == {};
      assert (set h | h in names && Generic(h)) == {};
    } else {
      var before, last := order[..|order| - 1], order[|order| - 1];
      var fewer := names - {last};
      assert forall x :: x in before <==> x in fewer by {
        assert forall x :: x in order <==> x in before || x == last;
      }
      CountIsSize(before, fewer);
      var all, less := set h | h in names && Generic(h), set h | h in fewer && Generic(h);
      if Generic(last) {
        assert all == less + {last} && last !in less;
      } else {
        assert all == less;
      }
    }
  }

  /** The host that gets number `k`. */
  lemma {:induction false} NumberedHost(order: seq<string>, k: nat) returns (j: nat)
    requires k < GenericCount(order)
    ensures j < |order| && Generic(order[j]) && GenericCount(order[..j]) == k
  {
    var last := |order| - 1;
    if Generic(order[last]) && GenericCount(order[..last]) == k {
      j := last;
    } else {
      j := NumberedHost(order[..last], k);
      assert order[..last][..j] == order[..j];
    }
  }

  lemma NumberInReach(order: seq<string>, hosts: map<string, HostV6>, j: nat)
    requires IsOrderOf(order, hosts.Keys) && j < |order| && Generic(order[j])
    ensures GenericCount(order[..j]) < |GenericHosts(hosts)|
  {
    CountIsSize(order, hosts.Keys);
    assert (set h | h in hosts.Keys && Generic(h)) == GenericHosts(hosts);
    CountGrows(order, j, |order|);
    assert order[..|order|] == order;
  }

  // ---------- safe aliases are kept in every order ----------

  /** A generated name that is a safe alias of another host is "cloud0", and
      the host it was generated for comes first among the numbered ones. */
  lemma CollisionIsFirst(order: seq<string>, hosts: map<string, HostV6>, aliases: map<string, string>, name: string, j: nat)
    requires IsOrderOf(order, hosts.Keys) && j < |order|
    requires name in aliases && aliases[name] in hosts && SafeName(hosts, aliases, name)
    requires name == OwnName(order[..j], order[j]) && aliases[name] != order[j]
    ensures Generic(order[j]) && GenericCount(order[..j]) == 0 && name == Cloud(0)
    ensures Generic(aliases[name])
  {
    assert order[j] in order;
    if Generic(order[j]) { NumberInReach(order, hosts, j); }
  }

  lemma AliasIsKept(order: seq<string>, hosts: map<string, HostV6>, aliases: map<string, string>, name: string)
    requires IsOrderOf(order, hosts.Keys)
    requires name in aliases && aliases[name] in hosts && SafeName(hosts, aliases, name)
    ensures AliasKept(Named(order, hosts, aliases), hosts, aliases, name)
  {
    LastClaimIsHost(order, hosts, aliases, name);
    assert order[..|order|] == order;
    LastClaimWins(order, |order|, hosts, aliases, name);
  }

  /** A numbered host that none comes before is not after another one. */
  lemma FirstCountIsLow(order: seq<string>, i: nat, j: nat)
    requires i < |order| && j < |order| && Generic(order[i]) && GenericCount(order[..j]) == 0
    ensures j <= i
  {
    if i < j { CountGrows(order, i, j); }
  }

  lemma LastClaimIsHost(order: seq<string>, hosts: map<string, HostV6>, aliases: map<string, string>, name: string)
    requires IsOrderOf(order, hosts.Keys)
    requires name in aliases && aliases[name] in hosts && SafeName(hosts, aliases, name)
    ensures var last := LastClaim(order, |order|, aliases, name); last >= 0 && order[last] == aliases[name]
  {
    var i := PlaceOf(order, aliases[name]);
    assert Claims(order, i, aliases, name);
    var last := LastClaim(order, |order|, aliases, name);
    assert last >= i;
    if order[last] != aliases[name] { NoLaterClaim(order, hosts, aliases, name, i, last); }
  }

  /** No other host claims a safe alias after its own host. */
  lemma NoLaterClaim(order: seq<string>, hosts: map<string, HostV6>, aliases: map<string, string>, name: string, i: nat, j: nat)
    requires IsOrderOf(order, hosts.Keys) && i < |order| && j < |order| && order[i] != order[j]
    requires name in aliases && aliases[name] == order[i] && order[i] in hosts && SafeName(hosts, aliases, name)
    requires Claims(order, j, aliases, name)
    ensures j < i
  {
    CollisionIsFirst(order, hosts, aliases, name, j);
    FirstCountIsLow(order, i, j);
  }

  lemma HostIsPresent(order: seq<string>, hosts: map<string, HostV6>, aliases: map<string, string>, host: string)
    requires IsOrderOf(order, hosts.Keys) && Safe(hosts, aliases) && host in hosts
    ensures HostPresent(Written(order, hosts, aliases), hosts, host)
  {
    var i := PlaceOf(order, host);
    var name := OwnName(order[..i], host);
    if name in aliases && aliases[name] in hosts && aliases[name] != host {
      CollisionIsFirst(order, hosts, aliases, name, i);
      if b :| b in aliases && aliases[b] == host {
        AliasIsKept(order, hosts, aliases, b);
        assert b in Written(order, hosts, aliases);
      } else {
        SuppliedIsWritten(order, hosts, aliases, host);
      }
    } else {
      forall j | 0 <= j < |order| && Claims(order, j, aliases, name) ensures order[j] == order[i] {
        assert order[j] in order;
        if order[j] != order[i] { OwnNamesDiffer(order, i, j); }
      }
      SoleClaim(order, hosts, aliases, name, i);
      assert name in Written(order, hosts, aliases);
    }
  }

  lemma SuppliedIsWritten(order: seq<string>, hosts: map<string, HostV6>, aliases: map<string, string>, host: string)
    requires IsOrderOf(order, hosts.Keys) && host in hosts && Generic(host) && Supplied(hosts, aliases, host)
    ensures HostPresent(Written(order, hosts, aliases), hosts, host)
  {
    var d :| d in DefaultsV7 && IsEntryOf(DefaultsV7[d], host, hosts[host]) && !(d in aliases && aliases[d] in hosts);
    FreeDefaultIsWritten(order, hosts, aliases, d);
  }

  /** A default whose name no alias of a listed host takes is written. */
  lemma FreeDefaultIsWritten(order: seq<string>, hosts: map<string, HostV6>, aliases: map<string, string>, d: string)
    requires IsOrderOf(order, hosts.Keys) && d in DefaultsV7 && Generic(DefaultsV7[d].url)
    requires !(d in aliases && aliases[d] in hosts)
    ensures d in Written(order, hosts, aliases) && Written(order, hosts, aliases)[d] == DefaultsV7[d]
  {
    assert order[..|order|] == order;
    LastClaimWins(order, |order|, hosts, aliases, d);
    forall j | 0 <= j < |order| ensures !Claims(order, j, aliases, d) {
      assert order[j] in hosts;
      DefaultIsNoOwnName(d, order[..j], order[j]);
    }
  }

  lemma DefaultIsNoOwnName(d: string, before: seq<string>, host: string)
    requires d in DefaultsV7 && Generic(DefaultsV7[d].url)
    ensures d != OwnName(before, host)
  {
    assert d in ["local", "play", "player", "dl"];
    assert d[0] in ['l', 'p', 'd'] && Cloud(GenericCount(before))[0] == 'c' && "s3"[0] == 's' && "gcs"[0] == 'g';
  }

  // ---------- an unsafe alias breaks some order ----------

  /** When the host of an alias is walked first and another host claims the name later, the alias is lost. */
  lemma LaterClaimTakes(order: seq<string>, hosts: map<string, HostV6>, aliases: map<string, string>, name: string, j: nat)
    requires IsOrderOf(order, hosts.Keys) && name in aliases && aliases[name] in hosts
    requires 0 < j < |order| && order[0] == aliases[name] && Claims(order, j, aliases, name)
    ensures !AliasKept(Written(order, hosts, aliases), hosts, aliases, name)
  {
    assert order[..|order|] == order;
    LastClaimWins(order, |order|, hosts, aliases, name);
    var last := LastClaim(order, |order|, aliases, name);
    assert order[last] != order[0];
  }

  lemma UnsafeAliasBreaks(hosts: map<string, HostV6>, aliases: map<string, string>, name: string) returns (order: seq<string>)
    requires name in aliases && aliases[name] in hosts && !SafeAlias(hosts, aliases, name)
    ensures IsOrderOf(order, hosts.Keys) && !AllKept(Written(order, hosts, aliases), hosts, aliases)
  {
    if !SafeName(hosts, aliases, name) {
      order := UnsafeNameLoses(hosts, aliases, name);
    } else {
      order := FirstNumberBreaks(hosts, aliases, name);
    }
  }

  lemma UnsafeNameLoses(hosts: map<string, HostV6>, aliases: map<string, string>, name: string) returns (order: seq<string>)
    requires name in aliases && aliases[name] in hosts && !SafeName(hosts, aliases, name)
    ensures IsOrderOf(order, hosts.Keys) && !AliasKept(Written(order, hosts, aliases), hosts, aliases, name)
  {
    var host := aliases[name];
    if name == "s3" && S3Url in hosts && host != S3Url {
      order := OrderWith([host], hosts.Keys);
      var j := PlaceOf(order, S3Url);
      LaterClaimTakes(order, hosts, aliases, name, j);
    } else if name == "gcs" && GcsUrl in hosts && host != GcsUrl {
      order := OrderWith([host], hosts.Keys);
      var j := PlaceOf(order, GcsUrl);
      LaterClaimTakes(order, hosts, aliases, name, j);
    } else {
      var k: nat :| name == Cloud(k) && k < |GenericHosts(hosts)| && !(k == 0 && Generic(host));
      order := OrderWith([host], hosts.Keys);
      CountIsSize(order, hosts.Keys);
      assert (set h | h in hosts.Keys && Generic(h)) == GenericHosts(hosts);
      var j := NumberedHost(order, k);
      LaterClaimTakes(order, hosts, aliases, name, j);
    }
  }

  /** A numbered host without another name, walked first, is lost when "cloud0" is an alias of the next one. */
  lemma FirstNumberBreaks(hosts: map<string, HostV6>, aliases: map<string, string>, name: string) returns (order: seq<string>)
    requires name in aliases && aliases[name] in hosts && name == Cloud(0)
    requires !OthersHaveNames(hosts, aliases, aliases[name])
    ensures IsOrderOf(order, hosts.Keys) && !AllKept(Written(order, hosts, aliases), hosts, aliases)
  {
    var host := aliases[name];
    var g :| g in hosts && Generic(g) && g != host && !HasOtherName(hosts, aliases, g);
    order := OrderWith([g, host], hosts.Keys);
    assert order[0] == g && order[1] == host;
    FirstHostIsLost(order, hosts, aliases, name);
  }

  lemma FirstHostIsLost(order: seq<string>, hosts: map<string, HostV6>, aliases: map<string, string>, name: string)
    requires IsOrderOf(order, hosts.Keys) && |order| > 1
    requires name == Cloud(0) && name in aliases && aliases[name] == order[1]
    requires order[0] in hosts && Generic(order[0]) && !HasOtherName(hosts, aliases, order[0])
    ensures !HostPresent(Written(order, hosts, aliases), hosts, order[0])
  {
    var g := order[0];
    assert order[..0] == [] && Claims(order, 1, aliases, name);
    var written := Written(order, hosts, aliases);
    forall n | n in written ensures !IsEntryOf(written[n], g, hosts[g]) {
      if n in Named(order, hosts, aliases) {
        FirstIsLost(order, hosts, aliases, name, n);
      } else if n in aliases && aliases[n] in hosts {
        ListedAliasIsNamed(order, hosts, aliases, n);
      }
    }
  }

  lemma ListedAliasIsNamed(order: seq<string>, hosts: map<string, HostV6>, aliases: map<string, string>, name: string)
    requires IsOrderOf(order, hosts.Keys) && name in aliases && aliases[name] in hosts
    ensures name in Named(order, hosts, aliases)
  {
    var i := PlaceOf(order, aliases[name]);
    assert order[..|order|] == order && Claims(order, i, aliases, name);
    LastClaimWins(order, |order|, hosts, aliases, name);
  }

  lemma FirstIsLost(order: seq<string>, hosts: map<string, HostV6>, aliases: map<string, string>, name: string, n: string)
    requires IsOrderOf(order, hosts.Keys) && |order| > 1
    requires Claims(order, 1, aliases, name) && name == OwnName(order[..0], order[0])
    requires n in aliases ==> aliases[n] != order[0]
    requires n in Named(order, hosts, aliases)
    ensures Named(order, hosts, aliases)[n].url != order[0]
  {
    assert order[..|order|] == order;
    LastClaimWins(order, |order|, hosts, aliases, n);
    var last := LastClaim(order, |order|, aliases, n);
    assert order[last] == order[0] ==> last == 0;
  }

  /** What the step writes has every listed host with its own keys and API, and every
      alias of a listed host, in all orders of walking the maps, if and only if every
      such alias is safe. */
  lemma KeptInEveryOrderExactly(hosts: map<string, HostV6>, aliases: map<string, string>)
    ensures (forall order :: IsOrderOf(order, hosts.Keys) ==> AllKept(Written(order, hosts, aliases), hosts, aliases))
       <==> Safe(hosts, aliases)
  {
    if Safe(hosts, aliases) {
      forall order | IsOrderOf(order, hosts.Keys) ensures AllKept(Written(order, hosts, aliases), hosts, aliases) {
        forall name | name in aliases && aliases[name] in hosts ensures AliasKept(Written(order, hosts, aliases), hosts, aliases, name) {
          AliasIsKept(order, hosts, aliases, name);
        }
        forall host | host in hosts ensures HostPresent(Written(order, hosts, aliases), hosts, host) {
          HostIsPresent(order, hosts, aliases, host);
        }
      }
    } else {
      var name :| name in aliases && aliases[name] in hosts && !SafeAlias(hosts, aliases, name);
      var order := UnsafeAliasBreaks(hosts, aliases, name);
    }
  }

  /** A file that loses a host: two hosts, the second with the alias "cloud0", walked
      in this order. */
  lemma HostIsLost(keys: HostV6)
    ensures var hosts, aliases, order := map[HostA := keys, HostB := keys], map["cloud0" := HostB], [HostA, HostB];
            && IsOrderOf(order, hosts.Keys) && !Safe(hosts, aliases)
            && !HostPresent(Written(order, hosts, aliases), hosts, HostA)
  {
    var hosts, aliases, order := map[HostA := keys, HostB := keys], map["cloud0" := HostB], [HostA, HostB];
    assert HostA[7] == 'a' && HostB[7] == 'b' && HostA[4] == ':' == HostB[4] && S3Url[4] == 's' == GcsUrl[4];
    assert Decimal(0) == "0" && Cloud(0) == "cloud0";
    assert order[0] == HostA && order[1] == HostB;
    NoDefaultForHostA(hosts, aliases);
    FirstHostIsLost(order, hosts, aliases, "cloud0");
    assert HostA in GenericHosts(hosts);
    assert !OthersHaveNames(hosts, aliases, HostB);
    assert !SafeAlias(hosts, aliases, "cloud0");
  }

  const HostA := "http://a:9000"
  const HostB := "http://b:9000"

  lemma NoDefaultForHostA(hosts: map<string, HostV6>, aliases: map<string, string>)
    requires HostA in hosts && forall b :: b in aliases ==> aliases[b] != HostA
    ensures !HasOtherName(hosts, aliases, HostA)
  {
    assert forall d :: d in DefaultsV7 ==> |DefaultsV7[d].url| > |HostA|;
  }

  /** No alias is named "s3", "gcs", or "cloud" with a number. */
  ghost predicate OrdinaryNames(aliases: map<string, string>) {
    forall name :: name in aliases ==> name != "s3" && name != "gcs" && forall k: nat :: name != Cloud(k)
  }

  lemma OrdinaryNamesAreSafe(hosts: map<string, HostV6>, aliases: map<string, string>)
    requires OrdinaryNames(aliases)
    ensures Safe(hosts, aliases)
  {
  }

  /** With ordinary alias names every host is also found under its generated name. */
  lemma OwnNameIsKept(order: seq<string>, hosts: map<string, HostV6>, aliases: map<string, string>, host: string) returns (name: string)
    requires IsOrderOf(order, hosts.Keys) && OrdinaryNames(aliases) && host in hosts
    ensures var named := Named(order, hosts, aliases); name in named && IsEntryOf(named[name], host, hosts[host])
    ensures name != "player" && name != "dl" && name != "play"
  {
    var i := PlaceOf(order, host);
    name := OwnName(order[..i], host);
    forall j | 0 <= j < |order| && Claims(order, j, aliases, name) ensures order[j] == order[i] {
      if order[j] != order[i] { OwnNamesDiffer(order, i, j); }
    }
    SoleClaim(order, hosts, aliases, name, i);
    if Generic(host) { assert name[0] == 'c'; }
  }

  /** Loading the defaults replaces no entry, so what was kept stays kept. */
  lemma DefaultsReplaceNothing(named: map<string, HostV7>, hosts: map<string, HostV6>, aliases: map<string, string>)
    ensures var full := WithDefaults(named, DefaultsV7);
            && (forall name :: name in named ==> name in full && full[name] == named[name])
            && (forall name :: name in DefaultsV7 ==> name in full)
            && (AllKept(named, hosts, aliases) ==> AllKept(full, hosts, aliases))
  {
    var full := WithDefaults(named, DefaultsV7);
    if AllKept(named, hosts, aliases) {
      forall host | host in hosts ensures HostPresent(full, hosts, host) {
        var name :| name in named && IsEntryOf(named[name], host, hosts[host]);
        assert name in full && full[name] == named[name];
      }
    }
  }
}
