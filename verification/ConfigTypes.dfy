// The versions of the configuration file, as records, and their default entries.
module ConfigTypes {

  /** The version strings that the client knows; any other text is `OtherVersion`. */
  datatype Version = V100 | V101 | V2 | V3 | V4 | V5 | V6 | V7 | V8 | V9 | V10 | OtherVersion(text: string)

  /** `globalMCConfigVersion`. */
  const CurrentVersion := V10

  const DefaultAccessKey := "YOUR-ACCESS-KEY-HERE"
  const DefaultSecretKey := "YOUR-SECRET-KEY-HERE"

  /** Versions 1.0.0 to 3. */
  datatype HostKeys = HostKeys(accessKeyId: string, secretAccessKey: string)

  /** Version 4. */
  datatype HostV4 = HostV4(accessKeyId: string, secretAccessKey: string, signature: string)

  /** Versions 5 and 6. */
  datatype HostV6 = HostV6(accessKeyId: string, secretAccessKey: string, api: string)

  /** Versions 7 and 8. */
  datatype HostV7 = HostV7(url: string, accessKey: string, secretKey: string, api: string)

  datatype HostV9 = HostV9(url: string, accessKey: string, secretKey: string, sessionToken: string, api: string, lookup: string)

  datatype AliasV10 = AliasV10(url: string, accessKey: string, secretKey: string, sessionToken: string, api: string,
                               path: string, license: string, apiKey: string, src: string)

  datatype Config =
    | ConfigKeys(version: Version, aliases: map<string, string>, hosts: map<string, HostKeys>)
    | ConfigV4(version: Version, aliases: map<string, string>, hostsV4: map<string, HostV4>)
    | ConfigV6(version: Version, aliases: map<string, string>, hostsV6: map<string, HostV6>)
    | ConfigV7(version: Version, hostsV7: map<string, HostV7>)
    | ConfigV9(version: Version, hostsV9: map<string, HostV9>)
    | ConfigV10(version: Version, aliasesV10: map<string, AliasV10>)

  datatype ConfigFile = Missing | Present(config: Config)

  /** The versions that a migration step reads. */
  predicate IsOld(version: Version) {
    version != V10 && !version.OtherVersion?
  }

  /** The record in the file has the fields of its version. */
  predicate Shaped(c: Config) {
    match c.version
    case V100 => c.ConfigKeys?
    case V101 => c.ConfigKeys?
    case V2 => c.ConfigKeys?
    case V3 => c.ConfigKeys?
    case V4 => c.ConfigV4?
    case V5 => c.ConfigV6?
    case V6 => c.ConfigV6?
    case V7 => c.ConfigV7?
    case V8 => c.ConfigV7?
    case V9 => c.ConfigV9?
    case _ => true
  }

  predicate ShapedFile(f: ConfigFile) {
    f.Present? ==> Shaped(f.config)
  }

  /** `setHost`/`setAlias` for each default: entries already there stay. */
  function WithDefaults<V>(entries: map<string, V>, defaults: map<string, V>): map<string, V> {
    defaults + entries
  }

  const DefaultsV101: map<string, HostKeys> :=
    map["localhost:*" := HostKeys("", ""),
        "127.0.0.1:*" := HostKeys("", ""),
        "*.s3*.amazonaws.com" := HostKeys("YOUR-ACCESS-KEY-ID-HERE", "YOUR-SECRET-ACCESS-KEY-HERE")]

  const PlayAccess := "Q3AM3UQ867SPQQA43P2F"
  const PlaySecret := "zuf+tfteSlswRu7BJ86wekitnifILbZam1KYY3TG"

  const DefaultsV7: map<string, HostV7> :=
    map["local" := HostV7("http://localhost:9000", "", "", "S3v4"),
        "s3" := HostV7("https://s3.amazonaws.com", DefaultAccessKey, DefaultSecretKey, "S3v4"),
        "gcs" := HostV7("https://storage.googleapis.com", DefaultAccessKey, DefaultSecretKey, "S3v2"),
        "play" := HostV7("https://play.min.io", "", "", "S3v4"),
        "player" := HostV7("https://play.min.io:9002", PlayAccess, PlaySecret, "S3v4"),
        "dl" := HostV7("https://dl.min.io:9000", "", "", "S3v4")]

  const DefaultsV8: map<string, HostV7> :=
    map["local" := HostV7("http://localhost:9000", "", "", "S3v4"),
        "s3" := HostV7("https://s3.amazonaws.com", DefaultAccessKey, DefaultSecretKey, "S3v4"),
        "gcs" := HostV7("https://storage.googleapis.com", DefaultAccessKey, DefaultSecretKey, "S3v2"),
        "play" := HostV7("https://play.min.io", PlayAccess, PlaySecret, "S3v4")]

  const DefaultsV10: map<string, AliasV10> :=
    map["local" := AliasV10("http://localhost:9000", "", "", "", "S3v4", "auto", "", "", ""),
        "s3" := AliasV10("https://s3.amazonaws.com", DefaultAccessKey, DefaultSecretKey, "", "S3v4", "dns", "", "", ""),
        "gcs" := AliasV10("https://storage.googleapis.com", DefaultAccessKey, DefaultSecretKey, "", "S3v2", "dns", "", "", ""),
        "play" := AliasV10("https://play.min.io", PlayAccess, PlaySecret, "", "S3v4", "auto", "", "", "")]
}
