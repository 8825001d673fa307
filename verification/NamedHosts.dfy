// From version 6, where aliases point at hosts, to version 7, where every host
// gets names: which names survive, whatever order the maps are walked in.
module NamedHosts {
  import opened ConfigTypes
  import opened MapWalk

  const S3Url := "https://s3.amazonaws.com"
  const GcsUrl := "https://storage.googleapis.com"

  // ---------- the generated names ----------

  function Digit(d: nat): char
    requires d < 10
  {
    "0123456789"[d]
  }

  /** `%d`. */
  function Decimal(n: nat): (s: string)
    ensures s != ""
  {
    if n < 10 then [Digit(n)] else Decimal(n / 10) + [Digit(n % 10)]
  }

  /** The number that a string of digits stands for. */
  function ValueOf(s: string): int {
    if s == "" then 0 else 10 * ValueOf(s[..|s| - 1]) + (s[|s| - 1] as int - '0' as int)
  }

  /** `%d` prints the number in digits without a leading zero. */
  lemma {:induction false} DecimalIsValue(n: nat)
    ensures ValueOf(Decimal(n)) == n
    ensures (forall c :: c in Decimal(n) ==> '0' <= c <= '9') && (n > 0 ==> Decimal(n)[0] != '0')
  {
    if n >= 10 {
      DecimalIsValue(n / 10);
      assert Decimal(n)[..|Decimal(n)| - 1] == Decimal(n / 10);
    } else {
      assert [Digit(n)][..0] == [];
    }
  }

  lemma {:induction false} DecimalInjective(m: nat, n: nat)
    requires Decimal(m) == Decimal(n)
    ensures m == n
  {
    var s, t := Decimal(m), Decimal(n);
    assert s[|s| - 1] == Digit(m % 10) && t[|t| - 1] == Digit(n % 10);
    DigitInjective(m % 10, n % 10);
    if m >= 10 && n >= 10 {
      assert s[..|s| - 1] == Decimal(m / 10) && t[..|t| - 1] == Decimal(n / 10);
      DecimalInjective(m / 10, n / 10);
    }
    assert m >= 10 ==> |s| >= 2;
    assert n >= 10 ==> |t| >= 2;
  }

  lemma DigitInjective(a: nat, b: nat)
    requires a < 10 && b < 10 && Digit(a) == Digit(b)
    ensures a == b
  {
  }

  function Cloud(k: nat): string {
    "cloud" + Decimal(k)
  }

  lemma CloudInjective(j: nat, k: nat)
    requires Cloud(j) == Cloud(k)
    ensures j == k
  {
    assert Cloud(j)[5..] == Decimal(j) && Cloud(k)[5..] == Decimal(k);
    DecimalInjective(j, k);
  }

  lemma CloudIsLong(k: nat)
    ensures Cloud(k) != "s3" && Cloud(k) != "gcs"
  {
  }

  predicate Generic(host: string) {
    host != S3Url && host != GcsUrl
  }

  function GenericCount(order: seq<string>): nat {
    if order == [] then 0
    else GenericCount(order[..|order| - 1]) + if Generic(order[|order| - 1]) then 1 else 0
  }

  /** The name generated for a host when `before` hosts came first. */
  function OwnName(before: seq<string>, host: string): string {
    if host == S3Url then "s3" else if host == GcsUrl then "gcs" else Cloud(GenericCount(before))
  }

  function EntryFor(host: string, h: HostV6): HostV7 {
    HostV7(host, h.accessKeyId, h.secretAccessKey, h.api)
  }

  /** The entry has the host's URL, and its keys and API are the host's own. */
  predicate IsEntryOf(e: HostV7, host: string, h: HostV6) {
    e.url == host && e.accessKey == h.accessKeyId && e.secretKey == h.secretAccessKey && e.api == h.api
  }

  // ---------- the walk ----------

  /** The aliases of a host, all with its entry. */
  function AliasEntries(host: string, h: HostV6, aliases: map<string, string>): map<string, HostV7> {
    map name | name in aliases && aliases[name] == host :: EntryFor(host, h)
  }

  /** The new hosts after walking the old ones in this order. */
  function Named(order: seq<string>, hosts: map<string, HostV6>, aliases: map<string, string>): map<string, HostV7>
    requires forall x :: x in order ==> x in hosts
  {
    if order == [] then map[]
    else
      var before, host := order[..|order| - 1], order[|order| - 1];
      (Named(before, hosts, aliases) + AliasEntries(host, hosts[host], aliases))
        [OwnName(before, host) := EntryFor(host, hosts[host])]
  }

  /** `migrateConfigV6ToV7` between loading and saving; both maps are walked in any order. */
  method NameHosts(hosts: map<string, HostV6>, oldAliases: map<string, string>)
    returns (named: map<string, HostV7>)
    ensures exists order :: IsOrderOf(order, hosts.Keys) && named == WithDefaults(Named(order, hosts, oldAliases), DefaultsV7)
  {
    named := map[];
    ghost var order := [];
    var aliasIndex := 0;
    var todo := hosts.Keys;
    while todo != {}
      invariant todo <= hosts.Keys && IsOrderOf(order, hosts.Keys - todo)
      invariant aliasIndex == GenericCount(order)
      invariant named == Named(order, hosts, oldAliases)
      decreases todo
    {
      var host :| host in todo;
      var h := hosts[host];
      NamedStep(order, host, hosts, oldAliases);
      todo := todo - {host};
      order := order + [host];
      named := NameByAliases(named, host, h, oldAliases);
      if host == S3Url {
        named := named["s3" := EntryFor(host, h)];
      } else if host == GcsUrl {
        named := named["gcs" := EntryFor(host, h)];
      } else {
        var alias := Cloud(aliasIndex);
        aliasIndex := aliasIndex + 1;
        named := named[alias := EntryFor(host, h)];
      }
    }
    named := WithDefaults(named, DefaultsV7);
  }

  lemma NamedStep(order: seq<string>, host: string, hosts: map<string, HostV6>, aliases: map<string, string>)
    requires host in hosts && forall x :: x in order ==> x in hosts
    ensures Named(order + [host], hosts, aliases)
         == (Named(order, hosts, aliases) + AliasEntries(host, hosts[host], aliases))[OwnName(order, host) := EntryFor(host, hosts[host])]
    ensures GenericCount(order + [host]) == GenericCount(order) + if Generic(host) then 1 else 0
  {
    assert (order + [host])[..|order|] == order;
  }

  method NameByAliases(start: map<string, HostV7>, host: string, h: HostV6, oldAliases: map<string, string>)
    returns (named: map<string, HostV7>)
    ensures named == start + AliasEntries(host, h, oldAliases)
  {
    named := start;
    var todo := oldAliases.Keys;
    while todo != {}
      invariant todo <= oldAliases.Keys
      invariant named == start + map name | name in oldAliases && name !in todo && oldAliases[name] == host :: EntryFor(host, h)
      decreases todo
    {
      var aliasName :| aliasName in todo;
      todo := todo - {aliasName};
      if oldAliases[aliasName] == host {
        named := named[aliasName := EntryFor(host, h)];
      }
    }
  }

  // ---------- the last claim wins ----------

  /** The host at place `i` of the walk writes an entry under `name`. */
  predicate Claims(order: seq<string>, i: nat, aliases: map<string, string>, name: string)
    requires i < |order|
  {
    (name in aliases && aliases[name] == order[i]) || name == OwnName(order[..i], order[i])
  }

  /** The last place among the first `k` that claims `name`, or -1. */
  function LastClaim(order: seq<string>, k: nat, aliases: map<string, string>, name: string): (i: int)
    requires k <= |order|
    ensures -1 <= i < k
    ensures i >= 0 ==> Claims(order, i, aliases, name)
    ensures forall j :: i < j < k ==> !Claims(order, j, aliases, name)
  {
    if k == 0 then -1
    else if Claims(order, k - 1, aliases, name) then k - 1
    else LastClaim(order, k - 1, aliases, name)
  }

  lemma EntryAfterStep(before: map<string, HostV7>, host: string, h: HostV6, aliases: map<string, string>, own: string, name: string)
    ensures var after := (before + AliasEntries(host, h, aliases))[own := EntryFor(host, h)];
            if (name in aliases && aliases[name] == host) || name == own then name in after && IsEntryOf(after[name], host, h)
            else (name in after <==> name in before) && (name in before ==> after[name] == before[name])
  {
  }

  /** Every entry is that of the last host that claims its name. */
  lemma {:induction false} LastClaimWins(order: seq<string>, k: nat, hosts: map<string, HostV6>, aliases: map<string, string>, name: string)
    requires k <= |order| && forall x :: x in order ==> x in hosts
    ensures var i := LastClaim(order, k, aliases, name);
            var named := Named(order[..k], hosts, aliases);
            if i < 0 then name !in named else name in named && IsEntryOf(named[name], order[i], hosts[order[i]])
  {
    if k > 0 {
      LastClaimWins(order, k - 1, hosts, aliases, name);
      assert order[..k] == order[..k - 1] + [order[k - 1]];
      NamedStep(order[..k - 1], order[k - 1], hosts, aliases);
      EntryAfterStep(Named(order[..k - 1], hosts, aliases), order[k - 1], hosts[order[k - 1]], aliases,
        OwnName(order[..k - 1], order[k - 1]), name);
    }
  }

  /** The entry of a name that only one host claims. */
  lemma SoleClaim(order: seq<string>, hosts: map<string, HostV6>, aliases: map<string, string>, name: string, i: nat)
    requires i < |order| && forall x :: x in order ==> x in hosts
    requires Claims(order, i, aliases, name)
    requires forall j :: 0 <= j < |order| && Claims(order, j, aliases, name) ==> order[j] == order[i]
    ensures var named := Named(order, hosts, aliases);
            name in named && IsEntryOf(named[name], order[i], hosts[order[i]])
  {
    assert order[..|order|] == order;
    LastClaimWins(order, |order|, hosts, aliases, name);
  }

  lemma {:induction false} CountGrows(order: seq<string>, i: nat, j: nat)
    requires i < j <= |order|
    ensures GenericCount(order[..i]) + (if Generic(order[i]) then 1 else 0) <= GenericCount(order[..j])
  {
    assert order[..j][..j - 1] == order[..j - 1];
    if i + 1 < j { CountGrows(order, i, j - 1); }
  }

  /** Two hosts never get the same generated name. */
  lemma OwnNamesDiffer(order: seq<string>, i: nat, j: nat)
    requires i < |order| && j < |order| && order[i] != order[j]
    ensures OwnName(order[..i], order[i]) != OwnName(order[..j], order[j])
  {
    var a, b := GenericCount(order[..i]), GenericCount(order[..j]);
    CloudIsLong(a);
    CloudIsLong(b);
    if i < j { CountGrows(order, i, j); } else if j < i { CountGrows(order, j, i); }
    if Cloud(a) == Cloud(b) { CloudInjective(a, b); }
  }
}
