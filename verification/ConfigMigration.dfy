// The migration pass over the configuration file: ten steps, each reading one
// version and writing a later one.
module ConfigMigration {
  import opened Text
  import opened ConfigTypes
  import opened MapWalk
  import NamedHosts

  // ---------- what the steps compute ----------

  const S3Glob := "*s3*amazonaws.com"
  const GcsGlob := "*storage.googleapis.com"
  const ExampleKey := "YOUR-ACCESS-KEY-ID-HERE"
  const ExampleSecret := "YOUR-SECRET-ACCESS-KEY-HERE"

  predicate IsS3Host(host: string) {
    Contains(host, "s3")
  }

  /** Keys that a user set: none empty, none left from the example. */
  predicate RealKeys(h: HostV6) {
    h.accessKeyId != ExampleKey && h.secretAccessKey != ExampleSecret && h.accessKeyId != "" && h.secretAccessKey != ""
  }

  /** From version 5 to 6, for any order of walking the hosts: other hosts keep
      their entries, all S3 hosts become one, with the keys of one of those that
      had real keys, and the examples fill what is missing. */
  ghost predicate Generalized(hosts: map<string, HostV6>, result: map<string, HostV6>, todo: set<string>) {
    && S3Glob in result && GcsGlob in result
    && (forall h :: h in result ==> h == S3Glob || h == GcsGlob || (h in hosts && h !in todo && !IsS3Host(h)))
    && (forall h :: h in hosts && h !in todo && !IsS3Host(h) ==> h in result && result[h] == hosts[h])
    && (GcsGlob !in hosts || GcsGlob in todo ==> result[GcsGlob] == HostV6(ExampleKey, ExampleSecret, "S3v2"))
    && (if exists h :: h in hosts && h !in todo && IsS3Host(h) && RealKeys(hosts[h])
        then exists h :: h in hosts && h !in todo && IsS3Host(h) && RealKeys(hosts[h]) && result[S3Glob] == hosts[h]
        else result[S3Glob] == HostV6(ExampleKey, ExampleSecret, "S3v4"))
  }

  predicate IsDemoName(host: string) {
    host == "player" || host == "dl" || host == "play"
  }

  /** Every entry that is kept, converted. */
  function Converted<A, B>(entries: map<string, A>, keep: string -> bool, convert: A -> B): map<string, B> {
    map name | name in entries && keep(name) :: convert(entries[name])
  }

  function ToV4(h: HostKeys): HostV4 {
    HostV4(h.accessKeyId, h.secretAccessKey, "v4")
  }

  /** The signature of version 4 is not carried over: every host gets "v4". */
  function ToV5(h: HostV4): HostV6 {
    HostV6(h.accessKeyId, h.secretAccessKey, "v4")
  }

  function ToV9(h: HostV7): HostV9 {
    HostV9(h.url, h.accessKey, h.secretKey, "", h.api, "auto")
  }

  function PathOfLookup(lookup: string): string {
    if lookup == "dns" then "off" else if lookup == "path" then "on" else "auto"
  }

  /** The session token is not carried over. */
  function ToV10(h: HostV9): AliasV10 {
    AliasV10(h.url, h.accessKey, h.secretKey, "", h.api, PathOfLookup(h.lookup), "", "", "")
  }

  function V7From(order: seq<string>, c: Config): map<string, HostV7>
    requires c.ConfigV6? && forall x :: x in order ==> x in c.hostsV6
  {
    WithDefaults(NamedHosts.Named(order, c.hostsV6, c.aliases), DefaultsV7)
  }

  function V8From(hosts: map<string, HostV7>): map<string, HostV7> {
    WithDefaults(Converted(hosts, name => !IsDemoName(name), (h: HostV7) => h), DefaultsV8)
  }

  function V9From(hosts: map<string, HostV7>): map<string, HostV9> {
    Converted(hosts, name => !IsDemoName(name), ToV9)
  }

  function V10From(hosts: map<string, HostV9>): map<string, AliasV10> {
    if hosts == map[] then DefaultsV10 else Converted(hosts, name => true, ToV10)
  }

  // ---------- the loops ----------

  /** A loop over a map in any order that fills a new map. */
  method ConvertEach<A, B>(entries: map<string, A>, keep: string -> bool, convert: A -> B) returns (result: map<string, B>)
    ensures result == Converted(entries, keep, convert)
  {
    result := map[];
    var todo := entries.Keys;
    while todo != {}
      invariant todo <= entries.Keys
      invariant result == map name | name in entries && name !in todo && keep(name) :: convert(entries[name])
      decreases todo
    {
      var name :| name in todo;
      todo := todo - {name};
      if !keep(name) { continue; }
      result := result[name := convert(entries[name])];
    }
  }

  method GeneralizeHosts(hosts: map<string, HostV6>) returns (result: map<string, HostV6>)
    ensures Generalized(hosts, result, {})
  {
    result := map[S3Glob := HostV6(ExampleKey, ExampleSecret, "S3v4"), GcsGlob := HostV6(ExampleKey, ExampleSecret, "S3v2")];
    var todo := hosts.Keys;
    S3GlobIsS3();
    while todo != {}
      invariant todo <= hosts.Keys
      invariant Generalized(hosts, result, todo)
      decreases todo
    {
      var host :| host in todo;
      var hostCfg := hosts[host];
      ghost var before, was := result, todo;
      todo := todo - {host};
      if IsS3Host(host) {
        if hostCfg.accessKeyId == ExampleKey || hostCfg.secretAccessKey == ExampleSecret
          || hostCfg.accessKeyId == "" || hostCfg.secretAccessKey == "" { continue; }
        result := result[S3Glob := hostCfg];
      } else {
        result := result[host := hostCfg];
      }
    }
  }

  /** The keys of the one S3 host, by field: those of a host whose name has "s3" in it and
      whose keys are neither empty nor the example's, if there is one. */
  lemma S3KeysAreReal(hosts: map<string, HostV6>, result: map<string, HostV6>)
    requires Generalized(hosts, result, {})
    ensures var e := result[S3Glob];
            var example := HostV6("YOUR-ACCESS-KEY-ID-HERE", "YOUR-SECRET-ACCESS-KEY-HERE", "S3v4");
            e == example || (exists h :: h in hosts && Contains(h, "s3") && hosts[h] == e)
    ensures var e := result[S3Glob];
            (exists h :: h in hosts && Contains(h, "s3")
                         && hosts[h].accessKeyId !in ["", "YOUR-ACCESS-KEY-ID-HERE"] && hosts[h].secretAccessKey !in ["", "YOUR-SECRET-ACCESS-KEY-HERE"])
            ==> e.accessKeyId !in ["", "YOUR-ACCESS-KEY-ID-HERE"] && e.secretAccessKey !in ["", "YOUR-SECRET-ACCESS-KEY-HERE"]
  {
    if h :| h in hosts && Contains(h, "s3") && hosts[h].accessKeyId !in ["", "YOUR-ACCESS-KEY-ID-HERE"]
            && hosts[h].secretAccessKey !in ["", "YOUR-SECRET-ACCESS-KEY-HERE"] {
      assert IsS3Host(h) && RealKeys(hosts[h]);
    }
  }

  lemma S3GlobIsS3()
    ensures IsS3Host(S3Glob) && S3Glob != GcsGlob
  {
    assert "s3" <= S3Glob[1..];
  }

  // ---------- the file and the steps ----------

  class ConfigDir {
    var file: ConfigFile

    constructor (f: ConfigFile)
      ensures file == f
    {
      file := f;
    }

    /** Saving replaces the whole record, or fails and leaves the file. */
    method Save(c: Config, failing: set<Version>) returns (ok: bool)
      modifies this
      ensures ok <==> c.version !in failing
      ensures file == if ok then Present(c) else old(file)
    {
      ok := c.version !in failing;
      if ok { file := Present(c); }
    }

    predicate At(v: Version)
      reads this
    {
      file.Present? && file.config.version == v
    }

    method V1ToV101(failing: set<Version>) returns (ok: bool)
      requires ShapedFile(file)
      modifies this
      ensures StepMade(old(file), file, ok, V100, V101, failing) && ShapedFile(file)
    {
      if !At(V100) { return true; }
      var hosts := WithExamples(file.config.hosts);
      ok := Save(ConfigKeys(V101, file.config.aliases, hosts), failing);
    }

    /** The example entries that are not there yet. */
    static method WithExamples(old_: map<string, HostKeys>) returns (hosts: map<string, HostKeys>)
      ensures hosts == WithDefaults(old_, DefaultsV101)
    {
      hosts := old_;
      if "localhost:*" !in hosts { hosts := hosts["localhost:*" := HostKeys("", "")]; }
      if "127.0.0.1:*" !in hosts { hosts := hosts["127.0.0.1:*" := HostKeys("", "")]; }
      if "*.s3*.amazonaws.com" !in hosts { hosts := hosts["*.s3*.amazonaws.com" := HostKeys(ExampleKey, ExampleSecret)]; }
    }

    method V101ToV2(failing: set<Version>) returns (ok: bool)
      requires ShapedFile(file)
      modifies this
      ensures StepMade(old(file), file, ok, V101, V2, failing) && ShapedFile(file)
    {
      if !At(V101) { return true; }
      ok := Save(ConfigKeys(V2, file.config.aliases, file.config.hosts), failing);
    }

    method V2ToV3(failing: set<Version>) returns (ok: bool)
      requires ShapedFile(file)
      modifies this
      ensures StepMade(old(file), file, ok, V2, V3, failing) && ShapedFile(file)
    {
      if !At(V2) { return true; }
      ok := Save(ConfigKeys(V3, file.config.aliases, file.config.hosts), failing);
    }

    method V3ToV4(failing: set<Version>) returns (ok: bool)
      requires ShapedFile(file)
      modifies this
      ensures StepMade(old(file), file, ok, V3, V4, failing) && ShapedFile(file)
    {
      if !At(V3) { return true; }
      var hosts := ConvertEach(file.config.hosts, name => true, ToV4);
      ok := Save(ConfigV4(V4, file.config.aliases, hosts), failing);
    }

    method V4ToV5(failing: set<Version>) returns (ok: bool)
      requires ShapedFile(file)
      modifies this
      ensures StepMade(old(file), file, ok, V4, V5, failing) && ShapedFile(file)
    {
      if !At(V4) { return true; }
      var hosts := ConvertEach(file.config.hostsV4, name => true, ToV5);
      ok := Save(ConfigV6(V5, file.config.aliases, hosts), failing);
    }

    method V5ToV6(failing: set<Version>) returns (ok: bool)
      requires ShapedFile(file)
      modifies this
      ensures StepMade(old(file), file, ok, V5, V6, failing) && ShapedFile(file)
    {
      if !At(V5) { return true; }
      var aliases := map["gcs" := NamedHosts.GcsUrl] + file.config.aliases;
      var hosts := GeneralizeHosts(file.config.hostsV6);
      ok := Save(ConfigV6(V6, aliases, hosts), failing);
    }

    method V6ToV7(failing: set<Version>) returns (ok: bool)
      requires ShapedFile(file)
      modifies this
      ensures StepMade(old(file), file, ok, V6, V7, failing) && ShapedFile(file)
    {
      if !At(V6) { return true; }
      var hosts := NamedHosts.NameHosts(file.config.hostsV6, file.config.aliases);
      ok := Save(ConfigV7(V7, hosts), failing);
    }

    /** The record of version 8 is stamped with the current version. */
    method V7ToV8(failing: set<Version>) returns (ok: bool)
      requires ShapedFile(file)
      modifies this
      ensures StepMade(old(file), file, ok, V7, CurrentVersion, failing) && ShapedFile(file)
    {
      if !At(V7) { return true; }
      var hosts := ConvertEach(file.config.hostsV7, name => !IsDemoName(name), (h: HostV7) => h);
      hosts := WithDefaults(hosts, DefaultsV8);
      ok := Save(ConfigV7(CurrentVersion, hosts), failing);
    }

    method V8ToV9(failing: set<Version>) returns (ok: bool)
      requires ShapedFile(file)
      modifies this
      ensures StepMade(old(file), file, ok, V8, V9, failing) && ShapedFile(file)
    {
      if !At(V8) { return true; }
      var hosts := ConvertEach(file.config.hostsV7, name => !IsDemoName(name), ToV9);
      ok := Save(ConfigV9(V9, hosts), failing);
    }

    method V9ToV10(failing: set<Version>) returns (ok: bool)
      requires ShapedFile(file)
      modifies this
      ensures StepMade(old(file), file, ok, V9, V10, failing) && ShapedFile(file)
    {
      if !At(V9) { return true; }
      var hosts := ConvertEach(file.config.hostsV9, name => true, ToV10);
      if file.config.hostsV9 == map[] {
        hosts := WithDefaults(hosts, DefaultsV10);
        assert hosts == DefaultsV10;
      }
      ok := Save(ConfigV10(CurrentVersion, hosts), failing);
    }

    /** `migrateConfig`; a failing save ends the process. */
    method MigrateConfig(failing: set<Version>) returns (ok: bool)
      requires ShapedFile(file)
      modifies this
      ensures ShapedFile(file)
      ensures ok ==> PassMade(old(file), file)
      ensures old(file).Missing? || !IsOld(old(file).config.version) ==> ok
      ensures !ok ==> file.Present? && IsOld(file.config.version)
    {
      ok := ToVersion6(failing);
      if ok { ok := FromVersion6(failing); }
    }

    /** The first six steps. */
    method ToVersion6(failing: set<Version>) returns (ok: bool)
      requires ShapedFile(file)
      modifies this
      ensures ShapedFile(file)
      ensures old(file).Missing? || !BeforeV6(old(file).config.version) ==> ok && file == old(file)
      ensures ok && old(file).Present? && BeforeV6(old(file).config.version) ==> At(V6) && FromEarly(old(file).config, file.config)
      ensures !ok ==> file.Present? && IsOld(file.config.version)
    {
      ok := ToVersion5(failing); if !ok { return; }
      ok := V5ToV6(failing);
    }

    method ToVersion5(failing: set<Version>) returns (ok: bool)
      requires ShapedFile(file)
      modifies this
      ensures ShapedFile(file)
      ensures SameEarly(old(file), file)
      ensures ok && old(file).Present? && BeforeV6(old(file).config.version) ==> At(V5)
      ensures old(file).Missing? || !BeforeV6(old(file).config.version) ==> ok
      ensures !ok ==> file.Present? && IsOld(file.config.version)
    {
      ok := V1ToV101(failing); if !ok { return; }
      KeysStepIsEarly(old(file), file, V100);
      ghost var f2 := file;
      ok := V101ToV2(failing); if !ok { return; }
      KeysStepIsEarly(f2, file, V101);
      ghost var f3 := file;
      ok := V2ToV3(failing); if !ok { return; }
      KeysStepIsEarly(f3, file, V2);
      ghost var f4 := file;
      ok := V3ToV4(failing); if !ok { return; }
      KeysStepIsEarly(f4, file, V3);
      ghost var f5 := file;
      ok := V4ToV5(failing); if !ok { return; }
      KeysStepIsEarly(f5, file, V4);
    }

    /** The last four steps. */
    method FromVersion6(failing: set<Version>) returns (ok: bool)
      requires ShapedFile(file) && (file.Present? ==> !BeforeV6(file.config.version))
      modifies this
      ensures ShapedFile(file)
      ensures ok ==> PassMade(old(file), file)
      ensures old(file).Missing? || !IsOld(old(file).config.version) ==> ok
      ensures !ok ==> file.Present? && IsOld(file.config.version)
    {
      ok := V6ToV7(failing); if !ok { return; }
      ok := V7ToV8(failing); if !ok { return; }
      ok := V8ToV9(failing); if !ok { return; }
      ok := V9ToV10(failing);
    }
  }

  predicate BeforeV6(v: Version) {
    v in {V100, V101, V2, V3, V4, V5}
  }

  /** The new record of one step, for some order of walking the maps. */
  ghost predicate Migrated(from: Config, to: Config)
    requires Shaped(from)
  {
    match from.version
    case V100 => to == ConfigKeys(V101, from.aliases, WithDefaults(from.hosts, DefaultsV101))
    case V101 => to == ConfigKeys(V2, from.aliases, from.hosts)
    case V2 => to == ConfigKeys(V3, from.aliases, from.hosts)
    case V3 => to == ConfigV4(V4, from.aliases, Converted(from.hosts, name => true, ToV4))
    case V4 => to == ConfigV6(V5, from.aliases, Converted(from.hostsV4, name => true, ToV5))
    case V5 => to.ConfigV6? && to.version == V6 && to.aliases == map["gcs" := NamedHosts.GcsUrl] + from.aliases
               && Generalized(from.hostsV6, to.hostsV6, {})
    case V6 => exists order ::
      IsOrderOf(order, from.hostsV6.Keys) && to == ConfigV7(V7, V7From(order, from))
    case V7 => to == ConfigV7(CurrentVersion, V8From(from.hostsV7))
    case V8 => to == ConfigV9(V9, V9From(from.hostsV7))
    case V9 => to == ConfigV10(CurrentVersion, V10From(from.hostsV9))
    case _ => false
  }

  function KeysToV6(h: HostKeys): HostV6 {
    HostV6(h.accessKeyId, h.secretAccessKey, "v4")
  }

  /** The hosts of a record up to version 5, as version 5 has them. */
  function EarlyHosts(c: Config): map<string, HostV6>
    requires Shaped(c) && BeforeV6(c.version)
  {
    match c.version
    case V5 => c.hostsV6
    case V4 => Converted(c.hostsV4, name => true, ToV5)
    case V100 => Converted(WithDefaults(c.hosts, DefaultsV101), name => true, KeysToV6)
    case _ => Converted(c.hosts, name => true, KeysToV6)
  }

  /** What the steps up to version 5 keep, by field: the keys of every host, with the
      API "v4" before version 5; version 1.0.0 gains the example hosts. */
  lemma EarlyHostsByField(c: Config)
    requires Shaped(c) && BeforeV6(c.version)
    ensures c.version == V5 ==> EarlyHosts(c) == c.hostsV6
    ensures c.version == V4 ==> EarlyHosts(c).Keys == c.hostsV4.Keys && forall h :: h in c.hostsV4 ==>
      EarlyHosts(c)[h] == HostV6(c.hostsV4[h].accessKeyId, c.hostsV4[h].secretAccessKey, "v4")
    ensures c.ConfigKeys? ==> forall h :: h in c.hosts ==>
      h in EarlyHosts(c) && EarlyHosts(c)[h] == HostV6(c.hosts[h].accessKeyId, c.hosts[h].secretAccessKey, "v4")
    ensures c.ConfigKeys? ==> EarlyHosts(c).Keys == c.hosts.Keys + if c.version == V100 then DefaultsV101.Keys else {}
  {
  }

  /** The version 6 record of a pass that began before it: the keys and aliases as
      they were, the API "v4" before version 5, the S3 hosts made one. */
  ghost predicate FromEarly(before: Config, v6: Config)
    requires Shaped(before) && BeforeV6(before.version)
  {
    && v6.ConfigV6? && v6.version == V6
    && v6.aliases == map["gcs" := NamedHosts.GcsUrl] + before.aliases
    && Generalized(EarlyHosts(before), v6.hostsV6, {})
  }

  /** A file before version 6 stays one with the same hosts and aliases; others do not change. */
  ghost predicate SameEarly(before: ConfigFile, after: ConfigFile)
    requires ShapedFile(before) && ShapedFile(after)
  {
    if before.Missing? || !BeforeV6(before.config.version) then after == before
    else
      && after.Present? && BeforeV6(after.config.version) && after.config.aliases == before.config.aliases
      && EarlyHosts(after.config) == EarlyHosts(before.config)
  }

  lemma KeysStepIsEarly(before: ConfigFile, after: ConfigFile, from: Version)
    requires ShapedFile(before) && ShapedFile(after) && from in {V100, V101, V2, V3, V4}
    requires if before.Present? && before.config.version == from then after.Present? && Migrated(before.config, after.config)
             else after == before
    ensures SameEarly(before, after)
  {
    if before.Present? && before.config.version == V3 {
      assert forall h: HostKeys :: ToV5(ToV4(h)) == KeysToV6(h);
      var v4 := Converted(before.config.hosts, name => true, ToV4);
      assert Converted(v4, name => true, ToV5) == Converted(before.config.hosts, name => true, KeysToV6);
    }
  }

  /** One step: nothing unless the file has its version; then the save works or ends the process. */
  ghost predicate StepMade(before: ConfigFile, after: ConfigFile, ok: bool, from: Version, to: Version, failing: set<Version>)
    requires ShapedFile(before)
  {
    if before.Missing? || before.config.version != from then ok && after == before
    else if to in failing then !ok && after == before
    else ok && after.Present? && after.config.version == to && Migrated(before.config, after.config)
  }

  // ---------- the pass ----------

  /** What a completed pass leaves, by the version it started at. */
  ghost predicate PassMade(before: ConfigFile, after: ConfigFile)
    requires ShapedFile(before)
  {
    if before.Missing? || !IsOld(before.config.version) then after == before
    else
      && after.Present? && after.config.version == CurrentVersion
      && if BeforeV6(before.config.version) then EarlyPassMade(before.config, after.config)
         else
           match before.config.version
           case V9 => after.config == ConfigV10(CurrentVersion, V10From(before.config.hostsV9))
           case V8 => after.config == ConfigV10(CurrentVersion, V10From(V9From(before.config.hostsV7)))
           case V7 => after.config == ConfigV7(CurrentVersion, V8From(before.config.hostsV7))
           case V6 => FromV6(before.config, after.config)
           case _ => false
  }

  ghost predicate FromV6(v6: Config, after: Config)
    requires v6.ConfigV6?
  {
    exists order :: IsOrderOf(order, v6.hostsV6.Keys) && after == ConfigV7(CurrentVersion, V8From(V7From(order, v6)))
  }

  ghost predicate EarlyPassMade(before: Config, after: Config)
    requires Shaped(before) && BeforeV6(before.version)
  {
    exists v6 :: FromEarly(before, v6) && FromV6(v6, after)
  }
}
