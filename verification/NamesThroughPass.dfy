// Exactly when a pass that starts at version 6 keeps every host and every alias:
// the step to version 7 may lose names, and the next one drops the demo names.
module NamesThroughPass {
  import opened ConfigTypes
  import opened ConfigMigration
  import opened MapWalk
  import opened NamedHosts
  import opened NamesKept
  import opened Sequences

  /** The hosts after both steps. */
  function Final(order: seq<string>, hosts: map<string, HostV6>, aliases: map<string, string>): map<string, HostV7>
    requires forall x :: x in order ==> x in hosts
  {
    V8From(Written(order, hosts, aliases))
  }

  /** A later default is the very entry of this host, under a name that is dropped or free. */
  ghost predicate SuppliedLater(hosts: map<string, HostV6>, aliases: map<string, string>, host: string)
    requires host in hosts
  {
    exists d :: d in DefaultsV8 && IsEntryOf(DefaultsV8[d], host, hosts[host]) && (IsDemoName(d) || !(d in aliases && aliases[d] in hosts))
  }

  ghost predicate HasLastingName(hosts: map<string, HostV6>, aliases: map<string, string>, host: string)
    requires host in hosts
  {
    (exists b :: b in aliases && aliases[b] == host && !IsDemoName(b)) || SuppliedLater(hosts, aliases, host)
  }

  ghost predicate OthersLast(hosts: map<string, HostV6>, aliases: map<string, string>, host: string) {
    forall g :: g in hosts && Generic(g) && g != host ==> HasLastingName(hosts, aliases, g)
  }

  /** A demo name has to name what the default puts back; any other alias is safe as
      for the first step, with names that outlast the second. */
  ghost predicate LastingAlias(hosts: map<string, HostV6>, aliases: map<string, string>, name: string)
    requires name in aliases && aliases[name] in hosts
  {
    if IsDemoName(name) then PutBack(name, aliases[name], hosts[aliases[name]])
    else SafeName(hosts, aliases, name) && (name == Cloud(0) ==> OthersLast(hosts, aliases, aliases[name]))
  }

  predicate PutBack(name: string, host: string, h: HostV6) {
    name in DefaultsV8 && IsEntryOf(DefaultsV8[name], host, h)
  }

  ghost predicate AllLast(hosts: map<string, HostV6>, aliases: map<string, string>) {
    forall name :: name in aliases && aliases[name] in hosts ==> LastingAlias(hosts, aliases, name)
  }

  // ---------- what the second step does to a name ----------

  lemma FinalEntry(order: seq<string>, hosts: map<string, HostV6>, aliases: map<string, string>, name: string)
    requires forall x :: x in order ==> x in hosts
    ensures var written, final_ := Written(order, hosts, aliases), Final(order, hosts, aliases);
            && (IsDemoName(name) ==> (name in final_ <==> name in DefaultsV8) && (name in final_ ==> final_[name] == DefaultsV8[name]))
            && (!IsDemoName(name) ==> (name in final_ <==> name in written) && (name in written ==> final_[name] == written[name]))
  {
    if !IsDemoName(name) && name in DefaultsV8 { assert name in DefaultsV7; }
  }

  lemma CloudIsNoDemo(k: nat)
    ensures !IsDemoName(Cloud(k)) && !IsDemoName("s3") && !IsDemoName("gcs")
  {
    assert Cloud(k)[0] == 'c';
  }

  lemma OwnNameIsNoDemo(before: seq<string>, host: string)
    ensures !IsDemoName(OwnName(before, host))
  {
    CloudIsNoDemo(GenericCount(before));
  }

  // ---------- the condition suffices ----------

  lemma AliasLasts(order: seq<string>, hosts: map<string, HostV6>, aliases: map<string, string>, name: string)
    requires IsOrderOf(order, hosts.Keys) && AllLast(hosts, aliases)
    requires name in aliases && aliases[name] in hosts
    ensures AliasKept(Final(order, hosts, aliases), hosts, aliases, name)
  {
    FinalEntry(order, hosts, aliases, name);
    if !IsDemoName(name) { AliasIsKept(order, hosts, aliases, name); }
  }

  lemma HostLasts(order: seq<string>, hosts: map<string, HostV6>, aliases: map<string, string>, host: string)
    requires IsOrderOf(order, hosts.Keys) && AllLast(hosts, aliases) && host in hosts
    ensures HostPresent(Final(order, hosts, aliases), hosts, host)
  {
    var i := PlaceOf(order, host);
    var name := OwnName(order[..i], host);
    OwnNameIsNoDemo(order[..i], host);
    if name in aliases && aliases[name] in hosts && aliases[name] != host {
      CollisionIsFirst(order, hosts, aliases, name, i);
      assert LastingAlias(hosts, aliases, name) && HasLastingName(hosts, aliases, host);
      if b :| b in aliases && aliases[b] == host && !IsDemoName(b) {
        AliasLasts(order, hosts, aliases, b);
      } else {
        SuppliedLasts(order, hosts, aliases, host);
      }
    } else {
      OwnNameLasts(order, hosts, aliases, i);
    }
  }

  lemma OwnNameLasts(order: seq<string>, hosts: map<string, HostV6>, aliases: map<string, string>, i: nat)
    requires IsOrderOf(order, hosts.Keys) && i < |order|
    requires var name := OwnName(order[..i], order[i]); name in aliases && aliases[name] in hosts ==> aliases[name] == order[i]
    ensures order[i] in hosts && HostPresent(Final(order, hosts, aliases), hosts, order[i])
  {
    var name := OwnName(order[..i], order[i]);
    assert order[i] in order;
    OwnNameIsNoDemo(order[..i], order[i]);
    forall j | 0 <= j < |order| && Claims(order, j, aliases, name) ensures order[j] == order[i] {
      assert order[j] in order;
      if order[j] != order[i] { OwnNamesDiffer(order, i, j); }
    }
    SoleClaim(order, hosts, aliases, name, i);
    FinalEntry(order, hosts, aliases, name);
    assert name in Final(order, hosts, aliases);
  }

  lemma SuppliedLasts(order: seq<string>, hosts: map<string, HostV6>, aliases: map<string, string>, host: string)
    requires IsOrderOf(order, hosts.Keys) && host in hosts && Generic(host) && SuppliedLater(hosts, aliases, host)
    ensures HostPresent(Final(order, hosts, aliases), hosts, host)
  {
    var d :| d in DefaultsV8 && IsEntryOf(DefaultsV8[d], host, hosts[host]) && (IsDemoName(d) || !(d in aliases && aliases[d] in hosts));
    FinalEntry(order, hosts, aliases, d);
    if !IsDemoName(d) {
      assert d == "local" && DefaultsV7[d] == DefaultsV8[d];
      FreeDefaultIsWritten(order, hosts, aliases, d);
    }
    assert d in Final(order, hosts, aliases);
  }

  // ---------- the condition is needed ----------

  lemma BrokenDemoIsLost(order: seq<string>, hosts: map<string, HostV6>, aliases: map<string, string>, name: string)
    requires IsOrderOf(order, hosts.Keys) && name in aliases && aliases[name] in hosts
    requires IsDemoName(name) && !LastingAlias(hosts, aliases, name)
    ensures !AliasKept(Final(order, hosts, aliases), hosts, aliases, name)
  {
    FinalEntry(order, hosts, aliases, name);
  }

  lemma UnsafeNameIsLost(hosts: map<string, HostV6>, aliases: map<string, string>, name: string) returns (order: seq<string>)
    requires name in aliases && aliases[name] in hosts && !IsDemoName(name) && !SafeName(hosts, aliases, name)
    ensures IsOrderOf(order, hosts.Keys) && !AliasKept(Final(order, hosts, aliases), hosts, aliases, name)
  {
    order := UnsafeNameLoses(hosts, aliases, name);
    FinalEntry(order, hosts, aliases, name);
  }

  /** The first numbered host, without a lasting name, when the second has the alias "cloud0". */
  lemma FirstDoesNotLast(order: seq<string>, hosts: map<string, HostV6>, aliases: map<string, string>, n: string)
    requires IsOrderOf(order, hosts.Keys) && |order| > 1
    requires Cloud(0) in aliases && aliases[Cloud(0)] == order[1]
    requires order[0] in hosts && Generic(order[0]) && !HasLastingName(hosts, aliases, order[0])
    requires n in Final(order, hosts, aliases)
    ensures !IsEntryOf(Final(order, hosts, aliases)[n], order[0], hosts[order[0]])
  {
    FinalEntry(order, hosts, aliases, n);
    if !IsDemoName(n) {
      if n in Named(order, hosts, aliases) {
        assert order[..0] == [] && Claims(order, 1, aliases, Cloud(0));
        FirstIsLost(order, hosts, aliases, Cloud(0), n);
      } else {
        if n in aliases && aliases[n] in hosts { ListedAliasIsNamed(order, hosts, aliases, n); }
        if Generic(DefaultsV7[n].url) { assert n == "local" && DefaultsV8[n] == DefaultsV7[n]; }
      }
    }
  }

  lemma HostDoesNotLast(hosts: map<string, HostV6>, aliases: map<string, string>) returns (order: seq<string>, g: string)
    requires Cloud(0) in aliases && aliases[Cloud(0)] in hosts && !OthersLast(hosts, aliases, aliases[Cloud(0)])
    ensures IsOrderOf(order, hosts.Keys) && g in hosts && !HostPresent(Final(order, hosts, aliases), hosts, g)
  {
    var host := aliases[Cloud(0)];
    g :| g in hosts && Generic(g) && g != host && !HasLastingName(hosts, aliases, g);
    order := OrderWith([g, host], hosts.Keys);
    assert order[0] == g && order[1] == host;
    forall n | n in Final(order, hosts, aliases) ensures !IsEntryOf(Final(order, hosts, aliases)[n], g, hosts[g]) {
      FirstDoesNotLast(order, hosts, aliases, n);
    }
  }

  lemma SomeOrderLoses(hosts: map<string, HostV6>, aliases: map<string, string>, name: string) returns (order: seq<string>)
    requires name in aliases && aliases[name] in hosts && !LastingAlias(hosts, aliases, name)
    ensures IsOrderOf(order, hosts.Keys) && !AllKept(Final(order, hosts, aliases), hosts, aliases)
  {
    if IsDemoName(name) {
      order := OrderWith([], hosts.Keys);
      BrokenDemoIsLost(order, hosts, aliases, name);
    } else if !SafeName(hosts, aliases, name) {
      order := UnsafeNameIsLost(hosts, aliases, name);
    } else {
      var g;
      order, g := HostDoesNotLast(hosts, aliases);
    }
  }

  // ---------- the main result ----------

  lemma KeptByAllOrdersExactly(hosts: map<string, HostV6>, aliases: map<string, string>)
    ensures (forall order :: IsOrderOf(order, hosts.Keys) ==> AllKept(Final(order, hosts, aliases), hosts, aliases))
       <==> AllLast(hosts, aliases)
  {
    if AllLast(hosts, aliases) {
      forall order | IsOrderOf(order, hosts.Keys) ensures AllKept(Final(order, hosts, aliases), hosts, aliases) {
        forall name | name in aliases && aliases[name] in hosts ensures AliasKept(Final(order, hosts, aliases), hosts, aliases, name) {
          AliasLasts(order, hosts, aliases, name);
        }
        forall host | host in hosts ensures HostPresent(Final(order, hosts, aliases), hosts, host) {
          HostLasts(order, hosts, aliases, host);
        }
      }
    } else {
      var name :| name in aliases && aliases[name] in hosts && !LastingAlias(hosts, aliases, name);
      var order := SomeOrderLoses(hosts, aliases, name);
    }
  }

  /** Every completed pass from a version 6 file leaves every listed host with its own
      keys and API, and every alias of one, if and only if all those aliases last: a
      condition on the file. */
  lemma KeptThroughPassExactly(before: Config)
    requires before.ConfigV6? && before.version == V6
    ensures (forall after :: PassMade(Present(before), after) ==> AllKept(after.config.hostsV7, before.hostsV6, before.aliases))
       <==> AllLast(before.hostsV6, before.aliases)
  {
    var hosts, aliases := before.hostsV6, before.aliases;
    KeptByAllOrdersExactly(hosts, aliases);
    if AllLast(hosts, aliases) {
      forall after | PassMade(Present(before), after) ensures AllKept(after.config.hostsV7, hosts, aliases) {
        var order :| IsOrderOf(order, hosts.Keys) && after.config == ConfigV7(CurrentVersion, V8From(V7From(order, before)));
        assert after.config.hostsV7 == Final(order, hosts, aliases);
      }
    } else {
      var order :| IsOrderOf(order, hosts.Keys) && !AllKept(Final(order, hosts, aliases), hosts, aliases);
      var after := Present(ConfigV7(CurrentVersion, V8From(V7From(order, before))));
      assert PassMade(Present(before), after);
    }
  }
}
