// Repairs of version 6 files before the migration, and what a second start finds.
module ConfigRepair {
  import opened Text
  import opened ConfigTypes
  import opened MapWalk
  import opened ConfigMigration
  import ClientUrls
  import NamedHosts
  import NamesKept

  datatype Option<T> = None | Some(value: T)

  // ---------- fixConfigV6 ----------

  /** The name that a glob entry is rewritten to. */
  function GlobTarget(host: string): Option<string> {
    if Contains(host, "*s3*") || Contains(host, "*.s3*") then Some("s3.amazonaws.com")
    else if Contains(host, "s3*") then Some("s3.amazonaws.com")
    else if Contains(host, "*amazonaws.com") || Contains(host, "*.amazonaws.com") then Some("s3.amazonaws.com")
    else if Contains(host, "*storage.googleapis.com") then Some("storage.googleapis.com")
    else if Contains(host, "localhost:*") then Some("localhost:9000")
    else if Contains(host, "127.0.0.1:*") then Some("127.0.0.1:9000")
    else None
  }

  /** Every test for a rewrite finds a star, and a star has ended the process before. */
  lemma RewriteNeedsStar(host: string)
    requires GlobTarget(host).Some?
    ensures Contains(host, "*")
  {
    if Contains(host, "*s3*") { StarInside(host, "*s3*"); }
    else if Contains(host, "*.s3*") { StarInside(host, "*.s3*"); }
    else if Contains(host, "s3*") { StarInside(host, "s3*"); }
    else if Contains(host, "*amazonaws.com") { StarInside(host, "*amazonaws.com"); }
    else if Contains(host, "*.amazonaws.com") { StarInside(host, "*.amazonaws.com"); }
    else if Contains(host, "*storage.googleapis.com") { StarInside(host, "*storage.googleapis.com"); }
    else if Contains(host, "localhost:*") { StarInside(host, "localhost:*"); }
    else { StarInside(host, "127.0.0.1:*"); }
  }

  lemma StarInside(host: string, p: string)
    requires Contains(host, p) && p != "" && (p[0] == '*' || p[|p| - 1] == '*')
    ensures Contains(host, "*")
  {
    ContainsByte(host, p, '*');
    var i :| 0 <= i < |host| && host[i] == '*';
    assert "*" <= host[i..];
  }

  ghost predicate HasGlob(hosts: map<string, HostV6>) {
    exists host :: host in hosts && Contains(host, "*")
  }

  ghost predicate HasRewrite(hosts: map<string, HostV6>) {
    exists host :: host in hosts && GlobTarget(host).Some?
  }

  /** `fixConfigV6`: a star in a name ends the process; otherwise entries that match
      a glob are renamed and the file is saved. */
  method FixGlobs(d: ConfigDir, failing: set<Version>) returns (ok: bool)
    requires ShapedFile(d.file)
    modifies d
    ensures ShapedFile(d.file)
    ensures !old(d.At(V6)) ==> ok && d.file == old(d.file)
    ensures old(d.At(V6)) && HasGlob(old(d.file).config.hostsV6) ==> !ok && d.file == old(d.file)
    ensures old(d.At(V6)) && !HasGlob(old(d.file).config.hostsV6) && !HasRewrite(old(d.file).config.hostsV6)
        ==> ok && d.file == old(d.file)
  {
    if !d.At(V6) { return true; }
    var aliases, hosts := d.file.config.aliases, d.file.config.hostsV6;
    var newHosts: map<string, HostV6> := map[];
    var isMutated := false;
    var todo := hosts.Keys;
    while todo != {}
      invariant todo <= hosts.Keys && d.file == old(d.file)
      invariant isMutated <==> exists host :: host in hosts && host !in todo && GlobTarget(host).Some?
      invariant forall host :: host in hosts && host !in todo ==> !Contains(host, "*")
      decreases todo
    {
      var host :| host in todo;
      todo := todo - {host};
      if Contains(host, "*") { return false; }
      match GlobTarget(host) {
        case Some(name) =>
          newHosts := newHosts[name := hosts[host]];
          isMutated := true;
        case None =>
          newHosts := newHosts[host := hosts[host]];
      }
    }
    if isMutated {
      ok := d.Save(ConfigV6(V6, aliases, newHosts), failing);
      return;
    }
    return true;
  }

  /** The renaming is never reached, so `fixConfigV6` leaves every file as it is: it
      ends the process exactly when a version 6 file has a star in some host name. */
  lemma GlobsAreNeverRewritten(hosts: map<string, HostV6>)
    ensures HasRewrite(hosts) ==> HasGlob(hosts)
  {
    if HasRewrite(hosts) {
      var host :| host in hosts && GlobTarget(host).Some?;
      RewriteNeedsStar(host);
    }
  }

  // ---------- fixConfigV6ForHosts ----------

  predicate HasScheme(host: string) {
    HasPrefix(host, "https") || HasPrefix(host, "http")
  }

  const KnownNames: seq<string> :=
    ["s3.amazonaws.com", "storage.googleapis.com", "localhost:9000", "127.0.0.1:9000", "play.min.io:9000", "dl.min.io:9000"]

  predicate IsBroken(host: string) {
    host in KnownNames
  }

  /** The name with the scheme, as the URL printer builds it. */
  function WithScheme(host: string): string {
    ClientUrls.Print(ClientUrls.Url(ClientUrls.ObjectStorage, "https", host, "", "://", '\0'))
  }

  lemma SchemeIsAdded(host: string)
    ensures WithScheme(host) == "https://" + host && HasScheme(WithScheme(host))
  {
    assert "https" + ":" + "//" == "https://";
    assert WithScheme(host)[..5] == "https";
  }

  lemma BrokenHasNoScheme(host: string)
    requires IsBroken(host)
    ensures !HasScheme(host)
  {
    assert host[0] != 'h' && "https"[0] == "http"[0] == 'h';
  }

  /** The repaired hosts, for any order of the walk, while `todo` is left: the entries
      with a scheme and the broken ones under their new name; a name that comes
      from both has one of the two entries.  All other hosts are dropped. */
  ghost predicate Repaired(hosts: map<string, HostV6>, result: map<string, HostV6>, todo: set<string>) {
    && (forall h :: h in hosts && h !in todo && HasScheme(h) ==> h in result)
    && (forall h :: h in hosts && h !in todo && IsBroken(h) ==> WithScheme(h) in result)
    && (forall k :: k in result ==> HasScheme(k) && HasOrigin(hosts, result, todo, k))
  }

  /** The repair writes the entry of `h` under `k`. */
  predicate IsOrigin(hosts: map<string, HostV6>, h: string, k: string) {
    h in hosts && if HasScheme(h) then k == h else IsBroken(h) && k == WithScheme(h)
  }

  ghost predicate HasOrigin(hosts: map<string, HostV6>, result: map<string, HostV6>, todo: set<string>, k: string)
    requires k in result
  {
    exists h :: IsOrigin(hosts, h, k) && h !in todo && result[k] == hosts[h]
  }

  ghost predicate HasBroken(hosts: map<string, HostV6>) {
    exists h :: h in hosts && IsBroken(h)
  }

  method RepairHosts(hosts: map<string, HostV6>) returns (newHosts: map<string, HostV6>, isMutated: bool)
    ensures Repaired(hosts, newHosts, {})
    ensures isMutated <==> HasBroken(hosts)
  {
    newHosts := map[];
    isMutated := false;
    var todo := hosts.Keys;
    while todo != {}
      invariant todo <= hosts.Keys
      invariant Repaired(hosts, newHosts, todo)
      invariant isMutated <==> exists h :: h in hosts && h !in todo && IsBroken(h)
      decreases todo
    {
      var host :| host in todo;
      RepairStep(hosts, newHosts, todo, host);
      todo := todo - {host};
      if HasScheme(host) {
        newHosts := newHosts[host := hosts[host]];
        continue;
      }
      if IsBroken(host) {
        newHosts := newHosts[WithScheme(host) := hosts[host]];
        isMutated := true;
      }
    }
  }

  lemma RepairStep(hosts: map<string, HostV6>, result: map<string, HostV6>, todo: set<string>, host: string)
    requires host in todo && host in hosts && Repaired(hosts, result, todo)
    ensures HasScheme(host) ==> Repaired(hosts, result[host := hosts[host]], todo - {host})
    ensures !HasScheme(host) && IsBroken(host) ==> Repaired(hosts, result[WithScheme(host) := hosts[host]], todo - {host})
    ensures !HasScheme(host) && !IsBroken(host) ==> Repaired(hosts, result, todo - {host})
    ensures HasScheme(host) ==> !IsBroken(host)
  {
    if HasScheme(host) {
      if IsBroken(host) { BrokenHasNoScheme(host); }
      RepairAdds(hosts, result, todo, host, host);
    } else if IsBroken(host) {
      SchemeIsAdded(host);
      RepairAdds(hosts, result, todo, host, WithScheme(host));
    }
  }

  lemma RepairAdds(hosts: map<string, HostV6>, result: map<string, HostV6>, todo: set<string>, host: string, k: string)
    requires host in todo && host in hosts && Repaired(hosts, result, todo) && HasScheme(k)
    requires if HasScheme(host) then k == host && !IsBroken(host) else IsBroken(host) && k == WithScheme(host)
    ensures Repaired(hosts, result[k := hosts[host]], todo - {host})
  {
    forall n | n in result[k := hosts[host]] ensures HasScheme(n) && HasOrigin(hosts, result[k := hosts[host]], todo - {host}, n) {
      if n != k {
        assert HasOrigin(hosts, result, todo, n);
      } else {
        assert IsOrigin(hosts, host, n);
      }
    }
  }

  method FixHosts(d: ConfigDir, failing: set<Version>) returns (ok: bool)
    requires ShapedFile(d.file)
    modifies d
    ensures ShapedFile(d.file)
    ensures !old(d.At(V6)) || !HasBroken(old(d.file).config.hostsV6) ==> ok && d.file == old(d.file)
    ensures old(d.At(V6)) && HasBroken(old(d.file).config.hostsV6) ==>
      if V6 in failing then !ok && d.file == old(d.file)
      else ok && d.At(V6) && d.file.config.ConfigV6? && d.file.config.aliases == old(d.file).config.aliases
           && Repaired(old(d.file).config.hostsV6, d.file.config.hostsV6, {})
  {
    if !d.At(V6) { return true; }
    var hosts, isMutated := RepairHosts(d.file.config.hostsV6);
    if isMutated {
      ok := d.Save(ConfigV6(V6, d.file.config.aliases, hosts), failing);
      return;
    }
    return true;
  }

  /** Once repaired there is nothing left to repair. */
  lemma RepairedHasNoneBroken(hosts: map<string, HostV6>, result: map<string, HostV6>)
    requires Repaired(hosts, result, {})
    ensures !HasBroken(result)
  {
    forall k | k in result ensures !IsBroken(k) {
      if IsBroken(k) { BrokenHasNoScheme(k); }
    }
  }

  /** The names after a writing repair, exactly: those that had a scheme and the six
      known ones with theirs.  Any other host, "myserver:9000" say, is dropped from the file. */
  lemma RepairedNamesExactly(hosts: map<string, HostV6>, result: map<string, HostV6>, k: string)
    requires Repaired(hosts, result, {})
    ensures k in result <==> (k in hosts && "http" <= k) || exists b :: b in hosts && IsBroken(b) && k == "https://" + b
    ensures k in result && k in hosts && !(exists b :: b in hosts && IsBroken(b) && k == "https://" + b) ==> result[k] == hosts[k]
  {
    HttpIsScheme(k);
    forall b | b in hosts && IsBroken(b) ensures WithScheme(b) == "https://" + b { SchemeIsAdded(b); }
    if k in result {
      var h :| IsOrigin(hosts, h, k) && result[k] == hosts[h];
      if !HasScheme(h) { SchemeIsAdded(h); }
    }
  }

  lemma HttpIsScheme(host: string)
    ensures HasScheme(host) <==> "http" <= host
  {
    assert "https"[..4] == "http";
  }

  /** A file with one known and one other host keeps only the known one: "myserver:9000" is dropped. */
  lemma OtherHostIsDropped(known: HostV6, other: HostV6, result: map<string, HostV6>)
    requires Repaired(map["localhost:9000" := known, "myserver:9000" := other], result, {})
    ensures result == map["https://localhost:9000" := known]
  {
    MyServerIsUnknown();
    LocalIsKnown();
    BrokenHasNoScheme("localhost:9000");
    OnlyKnownIsLeft("localhost:9000", "myserver:9000", known, other, result);
  }

  lemma MyServerIsUnknown()
    ensures !HasScheme("myserver:9000") && !IsBroken("myserver:9000")
  {
    var name := "myserver:9000";
    assert name[0] == 'm';
    StartsOtherwise(name);
  }

  lemma StartsOtherwise(name: string)
    requires name != "" && name[0] == 'm'
    ensures !HasScheme(name) && !IsBroken(name)
  {
    assert forall known :: known in KnownNames ==> known[0] != 'm';
  }

  lemma LocalIsKnown()
    ensures IsBroken("localhost:9000") && WithScheme("localhost:9000") == "https://localhost:9000"
  {
    SchemeIsAdded("localhost:9000");
    assert "https://" + "localhost:9000" == "https://localhost:9000";
  }

  lemma OnlyKnownIsLeft(a: string, b: string, known: HostV6, other: HostV6, result: map<string, HostV6>)
    requires IsBroken(a) && !HasScheme(a) && !HasScheme(b) && !IsBroken(b) && a != b
    requires Repaired(map[a := known, b := other], result, {})
    ensures result == map[WithScheme(a) := known]
  {
    var hosts := map[a := known, b := other];
    assert a in hosts && hosts[a] == known;
    assert WithScheme(a) in result;
    forall k | k in result ensures k == WithScheme(a) && result[k] == known {
      var h :| IsOrigin(hosts, h, k) && result[k] == hosts[h];
      assert h == a;
    }
  }

  // ---------- a start of the client ----------

  /** No step of repair or migration looks at such a file. */
  ghost predicate Settled(f: ConfigFile) {
    f.Missing? || !IsOld(f.config.version)
  }

  /** The pass over the repaired record, for some order of the walk that repaired it. */
  ghost predicate RepairedPass(before: Config, after: ConfigFile)
    requires before.ConfigV6?
  {
    exists fixed :: Repaired(before.hostsV6, fixed, {}) && PassMade(Present(ConfigV6(V6, before.aliases, fixed)), after)
  }

  /** `migrate`: repair, then migrate; `ok` is false when the process ends early. */
  method RepairAndMigrate(d: ConfigDir, failing: set<Version>) returns (ok: bool)
    requires ShapedFile(d.file)
    modifies d
    ensures ShapedFile(d.file)
    ensures ok ==> Settled(d.file)
    ensures Settled(old(d.file)) ==> ok && d.file == old(d.file)
    ensures ok && (!old(d.At(V6)) || !HasBroken(old(d.file).config.hostsV6)) ==> PassMade(old(d.file), d.file)
    ensures ok && old(d.At(V6)) && HasBroken(old(d.file).config.hostsV6) ==> RepairedPass(old(d.file).config, d.file)
    ensures old(d.At(V6)) && HasGlob(old(d.file).config.hostsV6) ==> !ok && d.file == old(d.file)
  {
    if d.At(V6) { GlobsAreNeverRewritten(d.file.config.hostsV6); }
    ok := FixGlobs(d, failing);
    if !ok { return; }
    ok := FixHosts(d, failing);
    if !ok { return; }
    ghost var repaired := d.file;
    ok := d.MigrateConfig(failing);
    assert ok ==> PassMade(repaired, d.file);
  }

  /** Starting twice: whatever the second run's saves would do, it finds nothing to do. */
  method StartTwice(d: ConfigDir, failing1: set<Version>, failing2: set<Version>) returns (ok1: bool, ok2: bool, ghost afterFirst: ConfigFile)
    requires ShapedFile(d.file)
    modifies d
    ensures ok1 ==> ok2 && Settled(afterFirst) && d.file == afterFirst
  {
    ok1 := RepairAndMigrate(d, failing1);
    afterFirst := d.file;
    ok2 := RepairAndMigrate(d, failing2);
  }

  // ---------- what files of version 8 and 9 become ----------

  /** Every host keeps name, URL, keys and API, its path setting follows its lookup
      setting, its session token is gone, and the defaults appear exactly when there was no host. */
  ghost predicate KeptFromV9(hosts: map<string, HostV9>, out: map<string, AliasV10>) {
    && (out == DefaultsV10 <==> hosts == map[])
    && (hosts != map[] ==> out.Keys == hosts.Keys)
    && (forall n :: n in hosts ==>
          n in out && out[n].url == hosts[n].url && out[n].accessKey == hosts[n].accessKey
          && out[n].secretKey == hosts[n].secretKey && out[n].api == hosts[n].api
          && (out[n].path == "off" <==> hosts[n].lookup == "dns")
          && (out[n].path == "on" <==> hosts[n].lookup == "path")
          && out[n].path in ["off", "on", "auto"]
          && out[n].sessionToken == "")
  }

  /** The same for every host but the three demo names, with automatic paths; the
      defaults appear exactly when only demo names were there. */
  ghost predicate KeptFromV8(hosts: map<string, HostV7>, out: map<string, AliasV10>) {
    && (out == DefaultsV10 <==> forall n :: n in hosts ==> n in ["player", "dl", "play"])
    && (out != DefaultsV10 ==> out.Keys == set n | n in hosts && n !in ["player", "dl", "play"])
    && (forall n :: n in hosts && n !in ["player", "dl", "play"] ==>
          n in out && out[n].url == hosts[n].url && out[n].accessKey == hosts[n].accessKey
          && out[n].secretKey == hosts[n].secretKey && out[n].api == hosts[n].api && out[n].path == "auto")
  }

  lemma StepFromV9(hosts: map<string, HostV9>)
    ensures KeptFromV9(hosts, V10From(hosts))
  {
    var out := V10From(hosts);
    if hosts != map[] {
      assert out.Keys == hosts.Keys;
      assert DefaultsV10["s3"].path == "dns";
      if "s3" in hosts { assert out["s3"].path == PathOfLookup(hosts["s3"].lookup); }
    }
  }

  /** What a pass over a file of version 9 leaves. */
  lemma FromVersion9(before: Config, after: ConfigFile)
    requires Shaped(before) && before.version == V9 && PassMade(Present(before), after)
    ensures after.Present? && after.config.ConfigV10? && KeptFromV9(before.hostsV9, after.config.aliasesV10)
  {
    StepFromV9(before.hostsV9);
  }

  /** The step to version 9 drops the demo names and converts the others. */
  lemma WithoutDemoNames(hosts: map<string, HostV7>)
    ensures V9From(hosts).Keys == set n | n in hosts && n !in ["player", "dl", "play"]
    ensures forall n :: n in V9From(hosts) ==>
      V9From(hosts)[n] == HostV9(hosts[n].url, hosts[n].accessKey, hosts[n].secretKey, "", hosts[n].api, "auto")
    ensures V9From(hosts) == map[] <==> forall n :: n in hosts ==> n in ["player", "dl", "play"]
  {
    if V9From(hosts) == map[] {
      forall n | n in hosts ensures n in ["player", "dl", "play"] { assert n !in V9From(hosts); }
    }
  }

  lemma StepsFromV8(hosts: map<string, HostV7>)
    ensures KeptFromV8(hosts, V10From(V9From(hosts)))
  {
    WithoutDemoNames(hosts);
    StepFromV9(V9From(hosts));
    LastStepFromV8(hosts, V9From(hosts), V10From(V9From(hosts)));
  }

  lemma LastStepFromV8(hosts: map<string, HostV7>, mid: map<string, HostV9>, out: map<string, AliasV10>)
    requires mid.Keys == set n | n in hosts && n !in ["player", "dl", "play"]
    requires forall n :: n in mid ==> mid[n] == HostV9(hosts[n].url, hosts[n].accessKey, hosts[n].secretKey, "", hosts[n].api, "auto")
    requires mid == map[] <==> forall n :: n in hosts ==> n in ["player", "dl", "play"]
    requires KeptFromV9(mid, out)
    ensures KeptFromV8(hosts, out)
  {
    forall n | n in hosts && n !in ["player", "dl", "play"] ensures n in mid { }
  }

  /** What a pass over a file of version 8 leaves. */
  lemma FromVersion8(before: Config, after: ConfigFile)
    requires Shaped(before) && before.version == V8 && PassMade(Present(before), after)
    ensures after.Present? && after.config.ConfigV10? && KeptFromV8(before.hostsV7, after.config.aliasesV10)
  {
    StepsFromV8(before.hostsV7);
  }

  /** Files of version 6 whose aliases have ordinary names: after the pass every
      alias of a listed host, but for the demo names, is an entry with the host's URL,
      keys and API, and so is some name for every host. */
  lemma FromVersion6(before: Config, after: ConfigFile)
    requires before.ConfigV6? && before.version == V6 && PassMade(Present(before), after)
    requires NamesKept.OrdinaryNames(before.aliases)
    ensures after.Present? && after.config.ConfigV7?
    ensures forall a :: a in before.aliases && before.aliases[a] in before.hostsV6 && !IsDemoName(a) ==>
        a in after.config.hostsV7
        && NamedHosts.IsEntryOf(after.config.hostsV7[a], before.aliases[a], before.hostsV6[before.aliases[a]])
    ensures forall h :: h in before.hostsV6 ==> NamesKept.HostPresent(after.config.hostsV7, before.hostsV6, h)
  {
    var order :| IsOrderOf(order, before.hostsV6.Keys)
      && after.config == ConfigV7(CurrentVersion, V8From(V7From(order, before)));
    var named := NamedHosts.Named(order, before.hostsV6, before.aliases);
    var final_ := after.config.hostsV7;
    NamesKept.OrdinaryNamesAreSafe(before.hostsV6, before.aliases);
    forall n | n in named && !IsDemoName(n) ensures n in final_ && final_[n] == named[n] {
      assert n in V7From(order, before) && V7From(order, before)[n] == named[n];
    }
    forall a | a in before.aliases && before.aliases[a] in before.hostsV6 && !IsDemoName(a)
      ensures a in final_ && NamedHosts.IsEntryOf(final_[a], before.aliases[a], before.hostsV6[before.aliases[a]])
    {
      NamesKept.AliasIsKept(order, before.hostsV6, before.aliases, a);
    }
    forall h | h in before.hostsV6 ensures NamesKept.HostPresent(final_, before.hostsV6, h) {
      var name := NamesKept.OwnNameIsKept(order, before.hostsV6, before.aliases, h);
      assert name in final_ && NamedHosts.IsEntryOf(final_[name], h, before.hostsV6[h]);
    }
  }
}
