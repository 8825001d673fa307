// The cached configuration in front of its file: one object, shared by everyone
// who loads it, changed in place before it is saved.
module AliasStore {
  import opened ConfigTypes
  import opened ConfigMigration
  import opened ConfigRepair

  /** `configV10`. */
  class ConfigObject {
    var aliases: map<string, AliasV10>

    constructor (aliases: map<string, AliasV10>)
      ensures this.aliases == aliases
    {
      this.aliases := aliases;
    }
  }

  /** What loading the current version finds in a record: only a version 10 record has aliases. */
  function LoadedAliases(c: Config): map<string, AliasV10> {
    if c.ConfigV10? then c.aliasesV10 else map[]
  }

  /** One call of the program on its configuration. */
  datatype Op =
    | Load
    | Set(name: string, cfg: AliasV10)
    | Remove(name: string, elsewhere: bool)   // `elsewhere`: the alias is also set in the environment

  /** The call ends the process: an alias to remove must exist somewhere. */
  predicate Aborts(m: map<string, AliasV10>, op: Op) {
    op.Remove? && !op.elsewhere && op.name !in m
  }

  /** The same call on a plain map. */
  function Apply(m: map<string, AliasV10>, op: Op): map<string, AliasV10> {
    match op
    case Load => m
    case Set(name, cfg) => m[name := cfg]
    case Remove(name, _) => m - {name}
  }

  function ApplyAll(m: map<string, AliasV10>, ops: seq<Op>): map<string, AliasV10> {
    if ops == [] then m else Apply(ApplyAll(m, ops[..|ops| - 1]), ops[|ops| - 1])
  }

  /** No call of the run ends the process. */
  predicate NoneAborts(m: map<string, AliasV10>, ops: seq<Op>) {
    ops == [] || (NoneAborts(m, ops[..|ops| - 1]) && !Aborts(ApplyAll(m, ops[..|ops| - 1]), ops[|ops| - 1]))
  }

  class Client {
    var file: ConfigFile
    var cache: ConfigObject?      // cacheCfgV10
    var captured: ConfigObject?   // what the closure loadMcConfig returns; null is its error

    /** The cache is nil or agrees with the file, and the closure returns the cached object. */
    ghost predicate Valid()
      reads this, cache
    {
      && captured == cache
      && (cache != null ==> file.Present? && LoadedAliases(file.config) == cache.aliases)
    }

    constructor (f: ConfigFile)
      ensures Valid() && cache == null && file == f
    {
      file, cache, captured := f, null, null;
    }

    /** `loadConfigV10`: the cached object, or a new one read from the file. */
    method LoadConfigV10() returns (c: ConfigObject?)
      requires Valid()
      modifies this`cache
      ensures old(cache) != null ==> c == cache == old(cache)
      ensures old(cache) == null && file.Missing? ==> c == null && cache == null
      ensures old(cache) == null && file.Present? ==> c != null && fresh(c) && cache == c && c.aliases == LoadedAliases(file.config)
    {
      if cache != null { return cache; }
      if file.Missing? { return null; }
      c := new ConfigObject(LoadedAliases(file.config));
      cache := c;
    }

    /** `loadMcConfigFactory`: captures what loading gives. */
    method RefreshClosure()
      requires cache == null || (file.Present? && LoadedAliases(file.config) == cache.aliases)
      requires captured == null || captured == cache
      modifies this`cache, this`captured
      ensures Valid()
      ensures file.Present? ==> cache != null && cache.aliases == LoadedAliases(file.config)
      ensures old(cache) != null ==> cache == old(cache)
      ensures old(cache) == null ==> cache == null || fresh(cache)
      ensures file.Missing? ==> cache == null
    {
      captured := cache;
      var c := LoadConfigV10();
      captured := c;
    }

    /** `saveConfigV10`: the cache changes before the file, and also when saving fails. */
    method SaveConfigV10(c: ConfigObject, saveFails: bool) returns (ok: bool)
      modifies this`cache, this`file
      ensures cache == c && ok == !saveFails
      ensures file == if ok then Present(ConfigV10(CurrentVersion, c.aliases)) else old(file)
    {
      cache := c;
      ok := !saveFails;
      if ok { file := Present(ConfigV10(CurrentVersion, c.aliases)); }
    }

    /** `saveMcConfig`. */
    method SaveMcConfig(c: ConfigObject, mkdirFails: bool, saveFails: bool) returns (ok: bool)
      requires captured == null || captured == c
      modifies this
      ensures ok <==> !mkdirFails && !saveFails
      ensures ok ==> Valid() && cache == c && file == Present(ConfigV10(CurrentVersion, c.aliases))
      ensures !ok ==> file == old(file) && captured == old(captured) && (cache == c || cache == old(cache))
    {
      if mkdirFails { return false; }
      ok := SaveConfigV10(c, saveFails);
      if !ok { return; }
      RefreshClosure();
    }

    /** `setAlias`.  When it fails to save, the process ends with the file as it was,
        and the shared object already changed. */
    method SetAlias(name: string, cfg: AliasV10, mkdirFails: bool, saveFails: bool) returns (ok: bool)
      requires Valid()
      modifies this, cache
      ensures ok <==> old(cache) != null && !mkdirFails && !saveFails
      ensures ok ==> Valid() && cache == old(cache)
      ensures ok ==> file == Present(ConfigV10(CurrentVersion, old(LoadedAliases(file.config))[name := cfg]))
      ensures !ok ==> file == old(file)
      ensures old(cache) != null ==> cache == old(cache) && cache.aliases == old(cache.aliases)[name := cfg]
    {
      var c := captured;
      if c == null { return false; }
      c.aliases := c.aliases[name := cfg];
      ok := SaveMcConfig(c, mkdirFails, saveFails);
    }

    /** `removeAlias`; the alias must exist, here or elsewhere. */
    method RemoveAlias(name: string, elsewhere: bool, mkdirFails: bool, saveFails: bool) returns (ok: bool)
      requires Valid()
      modifies this, cache
      ensures ok <==> old(cache) != null && (elsewhere || name in old(cache.aliases)) && !mkdirFails && !saveFails
      ensures ok ==> Valid() && cache == old(cache)
      ensures ok ==> file == Present(ConfigV10(CurrentVersion, old(LoadedAliases(file.config)) - {name}))
      ensures !ok ==> file == old(file)
    {
      var c := captured;
      if c == null { return false; }
      if !elsewhere && name !in c.aliases { return false; }
      c.aliases := c.aliases - {name};
      ok := SaveMcConfig(c, mkdirFails, saveFails);
    }

    /** The start of the program: a missing file is written with the defaults, then loaded. */
    method Start(mkdirFails: bool, saveFails: bool) returns (ok: bool)
      requires Valid() && cache == null
      modifies this
      ensures ok <==> file.Present?
      ensures ok ==> Valid() && cache != null && fresh(cache)
      ensures old(file).Present? ==> ok && file == old(file)
      ensures old(file).Missing? && ok ==> file == Present(ConfigV10(CurrentVersion, DefaultsV10))
    {
      if file.Missing? {
        var c := new ConfigObject(WithDefaults(map[], DefaultsV10));
        ok := SaveMcConfig(c, mkdirFails, saveFails);
        if !ok { return; }
        assert WithDefaults(map[], DefaultsV10) == DefaultsV10;
      }
      RefreshClosure();
      ok := true;
    }

    /** One call whose save succeeds. */
    method Perform(op: Op) returns (ok: bool)
      requires Valid() && cache != null
      modifies this, cache
      ensures Valid() && cache == old(cache)
      ensures ok <==> !Aborts(old(cache.aliases), op)
      ensures cache.aliases == if ok then Apply(old(cache.aliases), op) else old(cache.aliases)
    {
      match op {
        case Load => return true;
        case Set(name, cfg) => ok := SetAlias(name, cfg, false, false);
        case Remove(name, elsewhere) =>
          if !elsewhere && name !in cache.aliases { return false; }
          ok := RemoveAlias(name, elsewhere, false, false);
      }
    }

    /** Any run of calls whose saves succeed.  After each call the cache is the file,
        every load gives the very same object, holding at that moment what a plain
        map would hold after the calls so far, and a run ends early only at the removal
        of an alias that the plain map does not have. */
    method RunAll(ops: seq<Op>) returns (done: nat, loads: seq<map<string, AliasV10>>)
      requires Valid() && cache != null
      modifies this, cache
      ensures Valid() && cache == old(cache) && done <= |ops|
      ensures LoadedAliases(file.config) == cache.aliases == ApplyAll(old(cache.aliases), ops[..done])
      ensures loads == Seen(old(cache.aliases), ops[..done])
      ensures done < |ops| ==> Aborts(ApplyAll(old(cache.aliases), ops[..done]), ops[done])
      ensures NoneAborts(old(cache.aliases), ops[..done])
    {
      ghost var start := cache.aliases;
      done, loads := 0, [];
      while done < |ops|
        invariant done <= |ops| && Valid() && cache == old(cache)
        invariant cache.aliases == ApplyAll(start, ops[..done])
        invariant loads == Seen(start, ops[..done])
        invariant NoneAborts(start, ops[..done])
      {
        OneMoreCall(start, ops, done);
        if ops[done].Load? { loads := loads + [captured.aliases]; }
        var ok := Perform(ops[done]);
        if !ok { return; }
        done := done + 1;
      }
      assert ops[..|ops|] == ops;
    }
  }

  /** What the loads of a run show on a plain map. */
  function Seen(m: map<string, AliasV10>, ops: seq<Op>): seq<map<string, AliasV10>> {
    if ops == [] then []
    else
      var before := ops[..|ops| - 1];
      if ops[|ops| - 1].Load? then Seen(m, before) + [ApplyAll(m, before)] else Seen(m, before)
  }

  lemma OneMoreCall(m: map<string, AliasV10>, ops: seq<Op>, k: nat)
    requires k < |ops|
    ensures ApplyAll(m, ops[..k + 1]) == Apply(ApplyAll(m, ops[..k]), ops[k])
    ensures NoneAborts(m, ops[..k + 1]) <==> NoneAborts(m, ops[..k]) && !Aborts(ApplyAll(m, ops[..k]), ops[k])
    ensures Seen(m, ops[..k + 1]) == if ops[k].Load? then Seen(m, ops[..k]) + [ApplyAll(m, ops[..k])] else Seen(m, ops[..k])
  {
    assert ops[..k + 1][..k] == ops[..k];
  }

  predicate Touches(op: Op, name: string) {
    !op.Load? && op.name == name
  }

  /** Call `i` is the last one on `name`, and `out` is what it left there. */
  ghost predicate Decides(ops: seq<Op>, i: nat, name: string, out: map<string, AliasV10>) {
    && i < |ops| && Touches(ops[i], name)
    && (forall j :: i < j < |ops| ==> !Touches(ops[j], name))
    && (if ops[i].Set? then name in out && out[name] == ops[i].cfg else name !in out)
  }

  /** Only the last call on a name counts, and a name no call was on keeps its entry. */
  lemma {:induction false} LastCallDecides(m: map<string, AliasV10>, ops: seq<Op>, name: string) returns (i: int)
    ensures -1 <= i < |ops|
    ensures i >= 0 ==> Decides(ops, i, name, ApplyAll(m, ops))
    ensures i < 0 ==> forall j :: 0 <= j < |ops| ==> !Touches(ops[j], name)
    ensures i < 0 ==> (name in ApplyAll(m, ops) <==> name in m) && (name in m ==> ApplyAll(m, ops)[name] == m[name])
  {
    i := -1;
    if ops != [] {
      var last := |ops| - 1;
      i := LastCallDecides(m, ops[..last], name);
      if Touches(ops[last], name) { i := last; }
    }
  }

  /** Which starts keep their hosts loadable: after a completed pass loading finds
      aliases exactly when the pass began at version 8 or 9, and then those hosts are
      the aliases.  A pass from an older version leaves a record stamped with the
      current version that holds hosts and no aliases, which the first alias set replaces. */
  lemma LoadableExactly(before: Config, after: ConfigFile)
    requires Shaped(before) && IsOld(before.version) && PassMade(Present(before), after)
    ensures after.Present? && after.config.version == CurrentVersion
    ensures LoadedAliases(after.config) != map[] <==> before.version in {V8, V9}
    ensures before.version == V9 ==> KeptFromV9(before.hostsV9, LoadedAliases(after.config))
    ensures before.version == V8 ==> KeptFromV8(before.hostsV7, LoadedAliases(after.config))
  {
    if before.version == V9 {
      FromVersion9(before, after);
      SomeAliasFromV9(before.hostsV9, after.config.aliasesV10);
    } else if before.version == V8 {
      FromVersion8(before, after);
      SomeAliasFromV8(before.hostsV7, after.config.aliasesV10);
    }
  }

  lemma SomeAliasFromV9(hosts: map<string, HostV9>, out: map<string, AliasV10>)
    requires KeptFromV9(hosts, out)
    ensures out != map[]
  {
    assert "local" in DefaultsV10;
    if hosts != map[] { NotEmpty(out, hosts); }
  }

  lemma SomeAliasFromV8(hosts: map<string, HostV7>, out: map<string, AliasV10>)
    requires KeptFromV8(hosts, out)
    ensures out != map[]
  {
    assert "local" in DefaultsV10;
    if out != DefaultsV10 {
      var n :| n in hosts && n !in ["player", "dl", "play"];
      assert n in out;
    }
  }

  lemma NotEmpty<A, B>(m: map<string, A>, n: map<string, B>)
    requires m.Keys == n.Keys && n != map[]
    ensures m != map[]
  {
    assert n.Keys != {};
  }

  /** A host of a version 7 file that loading does not find after the pass. */
  lemma EarlyHostIsNotLoaded(host: HostV7, after: ConfigFile)
    requires PassMade(Present(ConfigV7(V7, map["mine" := host])), after)
    ensures "mine" in after.config.hostsV7 && after.config.hostsV7["mine"] == host
    ensures LoadedAliases(after.config) == map[]
  {
    LoadableExactly(ConfigV7(V7, map["mine" := host]), after);
    assert !IsDemoName("mine");
  }
}
