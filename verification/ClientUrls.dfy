// Parsing, printing and joining the client's URLs.
module ClientUrls {
  import opened Text

  // ---------- the standard library's cuts ----------

  /** `strings.Index`: the first place of `sep`, or -1. */
  function Index(s: string, sep: string): (i: int)
    ensures -1 <= i <= |s|
    ensures i >= 0 ==> sep <= s[i..]
  {
    if sep <= s then 0
    else if s == "" then -1
    else
      var r := Index(s[1..], sep);
      if r < 0 then -1 else assert s[1..][r..] == s[r + 1..]; r + 1
  }

  lemma {:induction false} IndexIsFirst(s: string, sep: string, j: nat)
    requires j <= |s| && sep <= s[j..]
    ensures 0 <= Index(s, sep) <= j
  {
    if !(sep <= s) {
      assert j > 0 by { assert s[0..] == s; }
      assert s[1..][j - 1..] == s[j..];
      IndexIsFirst(s[1..], sep, j - 1);
    }
  }

  /** `strings.Split` by a non-empty separator. */
  function Split(s: string, sep: string): (parts: seq<string>)
    requires sep != ""
    ensures parts != []
    decreases |s|
  {
    var i := Index(s, sep);
    if i < 0 then [s] else [s[..i]] + Split(s[i + |sep|..], sep)
  }

  // ---------- parsing ----------

  datatype UrlType = ObjectStorage | FileSystem

  datatype Url = Url(kind: UrlType, scheme: string, host: string, path: string, schemeSeparator: string, separator: char)

  predicate IsLetter(c: char) {
    'a' <= c <= 'z' || 'A' <= c <= 'Z'
  }

  /** The expression `^[a-zA-Z]+$`. */
  predicate ValidScheme(s: string) {
    s != "" && forall i :: 0 <= i < |s| ==> IsLetter(s[i])
  }

  function GetScheme(rawurl: string): (string, string) {
    var urlSplits := Split(rawurl, "://");
    if |urlSplits| == 2 && ValidScheme(urlSplits[0]) then (urlSplits[0], "//" + urlSplits[1])
    else ("", rawurl)
  }

  function SplitSpecial(s: string, delimiter: string, cutDelimiter: bool): (string, string) {
    var i := Index(s, delimiter);
    if i < 0 then (s, "")
    else if cutDelimiter then (s[..i], s[i + |delimiter|..])
    else (s[..i], s[i..])
  }

  /** No user part is supported: an authority with an `@` has no host. */
  function GetHost(authority: string): string {
    if '@' in authority then "" else authority
  }

  function NewClientUrl(urlStr: string): Url {
    var (scheme, rest) := GetScheme(urlStr);
    if HasPrefix(rest, "//") then AfterSlashes(scheme, rest[2..])
    else Url(FileSystem, "", "", rest, "", '/')
  }

  /** The part of `newClientURL` for what follows "//". */
  function AfterSlashes(scheme: string, rest: string): Url {
    var (authority, tail) := SplitSpecial(rest, "/", false);
    var path := if tail == "" then "/" else tail;
    var host := GetHost(authority);
    if host != "" && (scheme == "http" || scheme == "https") then
      Url(ObjectStorage, scheme, host, path, "://", '/')
    else Url(FileSystem, "", "", path, "", '/')
  }

  /** `ClientURL.String` on Unix. */
  function Print(u: Url): string {
    if u.kind == FileSystem then u.path
    else
      u.scheme + ":" + "//" + u.host
      + (if u.path != "" && u.path[0] != '/' && u.host != "" then "/" else "") + u.path
  }

  // ---------- which strings are object storage URLs ----------

  predicate NoSeparator(s: string) {
    Index(s, "://") < 0
  }

  predicate IsHost(host: string) {
    host != "" && '/' !in host && '@' !in host
  }

  /** The grammar: http or https, "://", a host, and nothing or a path; no second "://". */
  predicate Spells(s: string, scheme: string, host: string, tail: string) {
    && s == scheme + "://" + host + tail
    && (scheme == "http" || scheme == "https")
    && IsHost(host)
    && (tail != "" ==> tail[0] == '/')
    && NoSeparator(host + tail)
  }

  function ObjectUrl(scheme: string, host: string, tail: string): Url {
    Url(ObjectStorage, scheme, host, if tail == "" then "/" else tail, "://", '/')
  }

  lemma {:induction false} IndexOfSeparator(scheme: string, rest: string)
    requires ':' !in scheme
    ensures Index(scheme + "://" + rest, "://") == |scheme|
  {
    var s := scheme + "://" + rest;
    if scheme == "" {
      assert "://" <= s;
    } else {
      assert s[0] == scheme[0] != ':';
      assert s[1..] == scheme[1..] + "://" + rest;
      IndexOfSeparator(scheme[1..], rest);
    }
  }

  lemma {:induction false} IndexOfSlash(host: string, tail: string)
    requires '/' !in host && (tail != "" ==> tail[0] == '/')
    ensures Index(host + tail, "/") == if tail == "" then -1 else |host|
  {
    var s := host + tail;
    if host == "" {
      assert s == tail;
      if tail != "" { assert "/" <= s; }
    } else {
      assert s[0] == host[0] != '/';
      assert s[1..] == host[1..] + tail;
      IndexOfSlash(host[1..], tail);
    }
  }

  lemma SplitInTwo(scheme: string, rest: string)
    requires ':' !in scheme && NoSeparator(rest)
    ensures Split(scheme + "://" + rest, "://") == [scheme, rest]
  {
    var s := scheme + "://" + rest;
    IndexOfSeparator(scheme, rest);
    assert s[..|scheme|] == scheme && s[|scheme| + 3..] == rest;
  }

  lemma WebSchemes(scheme: string)
    requires scheme == "http" || scheme == "https"
    ensures ValidScheme(scheme) && ':' !in scheme
  {
  }

  lemma SchemeOfSpelled(scheme: string, rest: string)
    requires (scheme == "http" || scheme == "https") && NoSeparator(rest)
    ensures GetScheme(scheme + "://" + rest) == (scheme, "//" + rest)
  {
    WebSchemes(scheme);
    SplitInTwo(scheme, rest);
  }

  lemma AuthorityOfSpelled(host: string, tail: string)
    requires '/' !in host && (tail != "" ==> tail[0] == '/')
    ensures SplitSpecial(host + tail, "/", false) == (host, tail)
  {
    IndexOfSlash(host, tail);
    assert (host + tail)[..|host|] == host && (host + tail)[|host|..] == tail;
    if tail == "" { assert host + tail == host; }
  }

  lemma SchemeGivesAuthority(s: string, scheme: string, rest: string)
    requires GetScheme(s) == (scheme, "//" + rest)
    ensures NewClientUrl(s) == AfterSlashes(scheme, rest)
  {
    assert ("//" + rest)[2..] == rest;
  }

  lemma ParseSpelled(s: string, scheme: string, host: string, tail: string)
    requires Spells(s, scheme, host, tail)
    ensures NewClientUrl(s) == ObjectUrl(scheme, host, tail)
  {
    assert s == scheme + "://" + (host + tail);
    SchemeOfSpelled(scheme, host + tail);
    SchemeGivesAuthority(s, scheme, host + tail);
    ParseAuthority(scheme, host, tail);
  }

  lemma ParseAuthority(scheme: string, host: string, tail: string)
    requires (scheme == "http" || scheme == "https") && IsHost(host) && (tail != "" ==> tail[0] == '/')
    ensures AfterSlashes(scheme, host + tail) == ObjectUrl(scheme, host, tail)
  {
    AuthorityOfSpelled(host, tail);
  }

  lemma TwoParts(s: string) returns (before: string, after: string)
    requires |Split(s, "://")| == 2
    ensures Split(s, "://") == [before, after] && s == before + "://" + after && NoSeparator(after)
  {
    var i := Index(s, "://");
    before, after := s[..i], s[i + 3..];
    CutAt(s, "://", i);
    NothingSplit(after);
  }

  lemma CutAt(s: string, sep: string, i: nat)
    requires i <= |s| && sep <= s[i..]
    ensures i + |sep| <= |s| && s == s[..i] + sep + s[i + |sep|..]
  {
    assert s[i..][|sep|..] == s[i + |sep|..];
  }

  lemma NothingSplit(s: string)
    requires |Split(s, "://")| == 1
    ensures NoSeparator(s) && Split(s, "://") == [s]
  {
  }

  lemma PartsAtSlash(after: string) returns (host: string, tail: string)
    ensures SplitSpecial(after, "/", false) == (host, tail)
    ensures after == host + tail && '/' !in host && (tail != "" ==> tail[0] == '/')
  {
    var (h, t) := SplitSpecial(after, "/", false);
    host, tail := h, t;
    assert after == host + tail;
    forall j | 0 <= j < |host| ensures host[j] != '/' {
      if after[j] == '/' {
        assert "/" <= after[j..];
        IndexIsFirst(after, "/", j);
      }
    }
  }

  lemma SpelledFromParse(s: string) returns (scheme: string, host: string, tail: string)
    requires NewClientUrl(s).kind == ObjectStorage
    ensures Spells(s, scheme, host, tail)
  {
    var after;
    ObjectHasScheme(s);
    scheme, after := TwoParts(s);
    SchemeGivesAuthority(s, scheme, after);
    host, tail := PartsAtSlash(after);
    AssembleSpelling(s, scheme, after, host, tail);
  }

  lemma ObjectHasScheme(s: string)
    requires NewClientUrl(s).kind == ObjectStorage
    ensures |Split(s, "://")| == 2
    ensures GetScheme(s) == (Split(s, "://")[0], "//" + Split(s, "://")[1])
  {
  }

  lemma AssembleSpelling(s: string, scheme: string, after: string, host: string, tail: string)
    requires s == scheme + "://" + after && after == host + tail && NoSeparator(after)
    requires SplitSpecial(after, "/", false) == (host, tail) && AfterSlashes(scheme, after).kind == ObjectStorage
    requires '/' !in host && (tail != "" ==> tail[0] == '/')
    ensures Spells(s, scheme, host, tail)
  {
    assert s == scheme + "://" + host + tail;
  }

  /** A string is an object storage URL if and only if it is spelled by the
      grammar, and then the parts of the URL are the parts of the spelling. */
  lemma ParseExactly(s: string)
    ensures NewClientUrl(s).kind == ObjectStorage <==> exists scheme, host, tail :: Spells(s, scheme, host, tail)
    ensures forall scheme, host, tail :: Spells(s, scheme, host, tail) ==> NewClientUrl(s) == ObjectUrl(scheme, host, tail)
  {
    forall scheme, host, tail | Spells(s, scheme, host, tail) ensures NewClientUrl(s) == ObjectUrl(scheme, host, tail) {
      ParseSpelled(s, scheme, host, tail);
    }
    if NewClientUrl(s).kind == ObjectStorage {
      var scheme, host, tail := SpelledFromParse(s);
    }
  }

  // ---------- printing and parsing undo each other ----------

  /** The object storage URLs that parsing can produce. */
  predicate WellFormed(u: Url) {
    && u.kind == ObjectStorage
    && (u.scheme == "http" || u.scheme == "https")
    && IsHost(u.host)
    && u.path != "" && u.path[0] == '/'
    && NoSeparator(u.host + u.path)
    && u.schemeSeparator == "://" && u.separator == '/'
  }

  /** A slash at the end starts no "://". */
  lemma {:induction false} SlashAddsNoSeparator(s: string)
    requires NoSeparator(s) && '/' !in s
    ensures NoSeparator(s + "/")
  {
    var t := s + "/";
    if s != "" {
      assert t[1..] == s[1..] + "/";
      SlashAddsNoSeparator(s[1..]);
      assert !("://" <= t) by {
        if |t| >= 3 { assert t[1] == s[1]; }
      }
    }
  }

  lemma ParseGivesWellFormed(s: string)
    requires NewClientUrl(s).kind == ObjectStorage
    ensures WellFormed(NewClientUrl(s))
  {
    var scheme, host, tail := SpelledFromParse(s);
    ParseSpelled(s, scheme, host, tail);
    if tail == "" {
      assert host + tail == host;
      SlashAddsNoSeparator(host);
    }
  }

  /** An object storage URL is what parsing its print gives exactly when it is well formed. */
  lemma PrintThenParseExactly(u: Url)
    requires u.kind == ObjectStorage
    ensures NewClientUrl(Print(u)) == u <==> WellFormed(u)
  {
    if WellFormed(u) {
      assert Print(u) == u.scheme + "://" + u.host + u.path;
      ParseSpelled(Print(u), u.scheme, u.host, u.path);
    } else if NewClientUrl(Print(u)).kind == ObjectStorage {
      ParseGivesWellFormed(Print(u));
    }
  }

  /** Whenever a string parses to an object storage URL, printing gives the string
      back, with a slash added when it had no path, and parsing that changes nothing. */
  lemma ParseThenPrint(s: string)
    requires NewClientUrl(s).kind == ObjectStorage
    ensures var u := NewClientUrl(s);
            && (Print(u) == s || (Print(u) == s + "/" && u.path == "/"))
            && NewClientUrl(Print(u)) == u
  {
    var scheme, host, tail := SpelledFromParse(s);
    ParseSpelled(s, scheme, host, tail);
    PrintOfObject(scheme, host, tail);
    ParseGivesWellFormed(s);
    PrintThenParseExactly(NewClientUrl(s));
  }

  lemma PrintOfObject(scheme: string, host: string, tail: string)
    requires tail != "" ==> tail[0] == '/'
    ensures Print(ObjectUrl(scheme, host, tail)) == scheme + "://" + host + (if tail == "" then "/" else tail)
    ensures tail == "" ==> scheme + "://" + host + tail + "/" == scheme + "://" + host + "/"
  {
    assert scheme + ":" + "//" == scheme + "://";
  }

  /** Letters, then the only "://" of the string. */
  ghost predicate HasScheme(s: string) {
    exists scheme, rest :: ValidScheme(scheme) && NoSeparator(rest) && s == scheme + "://" + rest
  }

  lemma SchemeExactly(s: string)
    ensures HasScheme(s) <==> GetScheme(s).0 != ""
  {
    if HasScheme(s) {
      var scheme, rest :| ValidScheme(scheme) && NoSeparator(rest) && s == scheme + "://" + rest;
      assert ':' !in scheme;
      SplitInTwo(scheme, rest);
    }
    if GetScheme(s).0 != "" {
      var scheme, rest := TwoParts(s);
    }
  }

  /** A path that is not an object storage URL survives parsing exactly when it
      does not start with "//" and is not letters before its only "://". */
  lemma FilePathsKeptExactly(s: string)
    requires NewClientUrl(s).kind == FileSystem
    ensures Print(NewClientUrl(s)) == s <==> !HasPrefix(s, "//") && !HasScheme(s)
  {
    SchemeExactly(s);
    var (scheme, rest) := GetScheme(s);
    if scheme == "" {
      assert rest == s;
    } else {
      var before, after := TwoParts(s);
      SchemeGivesAuthority(s, scheme, after);
      var host, tail := PartsAtSlash(after);
      assert |s| == |before| + 3 + |after|;
    }
  }

  /** A "://" stands at place `j`. */
  predicate SeparatorAt(s: string, j: nat) {
    j + 2 < |s| && s[j] == ':' && s[j + 1] == '/' && s[j + 2] == '/'
  }

  lemma SeparatorStarts(s: string, j: nat)
    requires j <= |s|
    ensures SeparatorAt(s, j) <==> "://" <= s[j..]
  {
    var rest := s[j..];
    if |rest| >= 3 { assert rest[0] == s[j] && rest[1] == s[j + 1] && rest[2] == s[j + 2]; }
  }

  lemma NoSeparatorExactly(s: string)
    ensures NoSeparator(s) <==> forall j: nat :: !SeparatorAt(s, j)
  {
    if NoSeparator(s) {
      forall j: nat ensures !SeparatorAt(s, j) {
        NoneAt(s, j);
      }
    } else {
      SeparatorStarts(s, Index(s, "://"));
    }
  }

  lemma NoneAt(s: string, j: nat)
    requires NoSeparator(s)
    ensures !SeparatorAt(s, j)
  {
    if j <= |s| {
      SeparatorStarts(s, j);
      if "://" <= s[j..] { IndexIsFirst(s, "://", j); }
    }
  }

  /** Two paths that are lost: of "ftp://x/y" and of "//x/y" only "/y" is left. */
  lemma FilePathsLost()
    ensures Print(NewClientUrl("ftp://x/y")) == "/y" && Print(NewClientUrl("//x/y")) == "/y"
  {
    assert "ftp://x/y" == "ftp" + "://" + ("x" + "/y") && "//x/y" == "//" + ("x" + "/y");
    LostAfterScheme("ftp", "x", "/y");
    LostAfterSlashes("x", "/y");
  }

  lemma LostAfterScheme(scheme: string, host: string, tail: string)
    requires ValidScheme(scheme) && scheme != "http" && scheme != "https"
    requires ':' !in host && ':' !in tail && '/' !in host && tail != "" && tail[0] == '/'
    ensures Print(NewClientUrl(scheme + "://" + (host + tail))) == tail
  {
    NoSeparatorExactly(host + tail);
    assert ':' !in scheme;
    SplitInTwo(scheme, host + tail);
    SchemeGivesAuthority(scheme + "://" + (host + tail), scheme, host + tail);
    AuthorityOfSpelled(host, tail);
  }

  lemma LostAfterSlashes(host: string, tail: string)
    requires ':' !in host && ':' !in tail && '/' !in host && tail != "" && tail[0] == '/'
    ensures Print(NewClientUrl("//" + (host + tail))) == tail
  {
    var s := "//" + (host + tail);
    NoSeparatorExactly(s);
    SchemeGivesAuthority(s, "", host + tail);
    AuthorityOfSpelled(host, tail);
  }

  // ---------- joining ----------

  /** The path that `joinURLs` builds. */
  function JoinPaths(p: string, q: string): string {
    if HasSuffix(p, "/") then p + TrimPrefix(q, "/") else p + "/" + TrimPrefix(q, "/")
  }

  class ClientURL {
    var kind: UrlType
    var scheme: string
    var host: string
    var path: string
    var schemeSeparator: string
    var separator: char

    function Value(): Url
      reads this
    {
      Url(kind, scheme, host, path, schemeSeparator, separator)
    }

    constructor (urlStr: string)
      ensures Value() == NewClientUrl(urlStr)
    {
      var u := NewClientUrl(urlStr);
      kind, scheme, host, path := u.kind, u.scheme, u.host, u.path;
      schemeSeparator, separator := u.schemeSeparator, u.separator;
    }
  }

  /** `joinURLs` changes the path of its first argument in place and returns it. */
  method JoinURLs(url1: ClientURL, url2: ClientURL) returns (r: ClientURL)
    modifies url1`path
    ensures r == url1
    ensures url1.Value() == old(url1.Value()).(path := JoinPaths(old(url1.path), old(url2.path)))
  {
    var url1Path := url1.path;
    var url2Path := url2.path;
    if HasSuffix(url1Path, "/") {
      url1.path := url1Path + TrimPrefix(url2Path, "/");
    } else {
      url1.path := url1Path + "/" + TrimPrefix(url2Path, "/");
    }
    r := url1;
  }

  /** `urlJoinPath`: the second path, without one leading slash, after the first URL
      with exactly one slash made sure of.  For an object storage URL, and for a path
      that parsing keeps, that first URL is the very string given.  The result is read
      back as the join unless joining made a new "://". */
  method UrlJoinPath(url1: string, url2: string) returns (joined: string)
    ensures joined == WithSlash(Print(NewClientUrl(url1))) + TrimPrefix(NewClientUrl(url2).path, "/")
    ensures NewClientUrl(url1).kind == ObjectStorage || Print(NewClientUrl(url1)) == url1
        ==> joined == WithSlash(url1) + TrimPrefix(NewClientUrl(url2).path, "/")
    ensures NewClientUrl(url1).kind == ObjectStorage ==>
      var u, q := NewClientUrl(url1), NewClientUrl(url2).path;
      NewClientUrl(joined) == u.(path := JoinPaths(u.path, q)) <==> JoinsCleanly(url1, q)
  {
    var u1 := new ClientURL(url1);
    var u2 := new ClientURL(url2);
    ghost var q := u2.path;
    var u := JoinURLs(u1, u2);
    joined := Print(u.Value());
    PrintOfJoin(url1, q);
    if NewClientUrl(url1).kind == ObjectStorage { JoinReparsesExactly(url1, q); }
  }

  lemma PrintOfJoin(s: string, q: string)
    ensures var u := NewClientUrl(s);
            var joined := Print(u.(path := JoinPaths(u.path, q)));
            && joined == WithSlash(Print(u)) + TrimPrefix(q, "/")
            && (u.kind == ObjectStorage || Print(u) == s ==> joined == WithSlash(s) + TrimPrefix(q, "/"))
  {
    var u := NewClientUrl(s);
    if u.kind == ObjectStorage {
      ParseGivesWellFormed(s);
      PrintOfObjectJoin(u, q);
      SlashedPrint(s);
    } else {
      JoinIsSlashed(u.path, q);
    }
  }

  lemma PrintOfObjectJoin(u: Url, q: string)
    requires u.kind == ObjectStorage && u.path != "" && u.path[0] == '/'
    ensures Print(u.(path := JoinPaths(u.path, q))) == WithSlash(Print(u)) + TrimPrefix(q, "/")
  {
    var front := u.scheme + ":" + "//" + u.host;
    JoinIsSlashed(u.path, q);
    SlashedConcat(front, u.path);
    assert WithSlash(u.path)[0] == '/';
    assert front + "" == front;
    assert front + (WithSlash(u.path) + TrimPrefix(q, "/")) == front + WithSlash(u.path) + TrimPrefix(q, "/");
  }

  /** Printing adds a slash only where none ends the string. */
  lemma SlashedPrint(s: string)
    requires NewClientUrl(s).kind == ObjectStorage
    ensures WithSlash(Print(NewClientUrl(s))) == WithSlash(s)
  {
    var scheme, host, tail := SpelledFromParse(s);
    ParseSpelled(s, scheme, host, tail);
    PrintOfObject(scheme, host, tail);
    if tail == "" {
      assert s == scheme + "://" + host && s[|s| - 1] == host[|host| - 1] != '/';
      LastSlash(s);
      LastSlash(s + "/");
      assert s + tail == s;
    }
  }

  /** Joining is associative on all paths: empty ones, lone and repeated slashes included. */
  lemma JoinAssociative(p: string, q: string, r: string)
    ensures JoinPaths(JoinPaths(p, q), r) == JoinPaths(p, JoinPaths(q, r))
  {
    var t := TrimPrefix(q, "/");
    if t == "" {
      JoinWithNothing(p, q, r);
    } else {
      JoinWithSomething(p, q, r);
    }
  }

  function WithSlash(p: string): string {
    if HasSuffix(p, "/") then p else p + "/"
  }

  lemma JoinWithNothing(p: string, q: string, r: string)
    requires TrimPrefix(q, "/") == ""
    ensures JoinPaths(JoinPaths(p, q), r) == WithSlash(p) + TrimPrefix(r, "/") == JoinPaths(p, JoinPaths(q, r))
  {
    assert q == "" || q == "/" by { if q != "" { assert q == [q[0]] + q[1..]; } }
    assert WithSlash(p) + "" == WithSlash(p);
    assert JoinPaths(p, q) == WithSlash(p);
    var qr := JoinPaths(q, r);
    assert qr == "/" + TrimPrefix(r, "/");
    assert TrimPrefix(qr, "/") == TrimPrefix(r, "/");
  }

  lemma JoinWithSomething(p: string, q: string, r: string)
    requires TrimPrefix(q, "/") != ""
    ensures JoinPaths(JoinPaths(p, q), r) == JoinPaths(p, JoinPaths(q, r))
  {
    var t, r' := TrimPrefix(q, "/"), TrimPrefix(r, "/");
    JoinIsSlashed(p, q);
    JoinIsSlashed(q, r);
    JoinIsSlashed(JoinPaths(p, q), r);
    JoinIsSlashed(p, JoinPaths(q, r));
    assert HasSuffix(q, "/") <==> HasSuffix(t, "/") by {
      assert t[|t| - 1] == q[|q| - 1];
      LastSlash(t);
      LastSlash(q);
    }
    SlashedConcat(WithSlash(p), t);
    assert WithSlash(p) + WithSlash(t) + r' == WithSlash(p) + (WithSlash(t) + r');
    FirstSlash(q, r');
  }

  lemma JoinIsSlashed(p: string, q: string)
    ensures JoinPaths(p, q) == WithSlash(p) + TrimPrefix(q, "/")
  {
  }

  lemma SlashedConcat(a: string, t: string)
    requires t != ""
    ensures WithSlash(a + t) == a + WithSlash(t)
  {
    assert (a + t)[|a + t| - 1] == t[|t| - 1];
    LastSlash(a + t);
    LastSlash(t);
    assert a + t + "/" == a + (t + "/");
  }

  lemma FirstSlash(q: string, r: string)
    requires TrimPrefix(q, "/") != "" && (HasSuffix(q, "/") <==> HasSuffix(TrimPrefix(q, "/"), "/"))
    ensures TrimPrefix(WithSlash(q) + r, "/") == WithSlash(TrimPrefix(q, "/")) + r
  {
    var t := TrimPrefix(q, "/");
    var qr := WithSlash(q) + r;
    if HasPrefix(q, "/") {
      assert qr == "/" + (WithSlash(t) + r);
    } else {
      assert qr[0] == q[0] != '/';
    }
  }

  lemma LastSlash(p: string)
    requires p != ""
    ensures HasSuffix(p, "/") <==> p[|p| - 1] == '/'
  {
    assert p[|p| - 1..] == [p[|p| - 1]];
  }

  /** Adding the path makes no new "://": there is none in it, and it does not
      complete one with the end of the URL. */
  predicate JoinsCleanly(s: string, q: string) {
    var t := TrimPrefix(q, "/");
    NoSeparator(t) && !(HasSuffix(WithSlash(s), ":/") && HasPrefix(t, "/"))
  }

  lemma SuffixColonSlash(x: string)
    ensures HasSuffix(x, ":/") <==> |x| >= 2 && x[|x| - 2] == ':' && x[|x| - 1] == '/'
  {
    if |x| >= 2 { assert x[|x| - 2..] == [x[|x| - 2], x[|x| - 1]]; }
  }

  /** Where a separator can stand in what follows a slash. */
  lemma SeparatorPlace(x: string, t: string, j: nat)
    requires x != "" && x[|x| - 1] == '/'
    ensures SeparatorAt(x + t, j) <==>
      || SeparatorAt(x, j) || (j >= |x| && SeparatorAt(t, j - |x|))
      || (j + 2 == |x| && x[j] == ':' && t != "" && t[0] == '/')
  {
  }

  /** What follows a slash adds a separator only inside itself or after ":/". */
  lemma SeparatorAfterSlash(x: string, t: string)
    requires NoSeparator(x) && x != "" && x[|x| - 1] == '/'
    ensures NoSeparator(x + t) <==> NoSeparator(t) && !(HasSuffix(x, ":/") && HasPrefix(t, "/"))
  {
    NoSeparatorExactly(x);
    NoSeparatorExactly(t);
    NoSeparatorExactly(x + t);
    SuffixColonSlash(x);
    if !NoSeparator(t) {
      var j: nat :| SeparatorAt(t, j);
      SeparatorPlace(x, t, |x| + j);
    } else if HasSuffix(x, ":/") && HasPrefix(t, "/") {
      SeparatorPlace(x, t, |x| - 2);
    } else {
      forall j: nat ensures !SeparatorAt(x + t, j) { SeparatorPlace(x, t, j); }
    }
  }

  /** A joined object storage URL is read back as the join exactly when the path adds no "://". */
  lemma JoinReparsesExactly(s: string, q: string)
    requires NewClientUrl(s).kind == ObjectStorage
    ensures var u := NewClientUrl(s);
            var joined := u.(path := JoinPaths(u.path, q));
            NewClientUrl(Print(joined)) == joined <==> JoinsCleanly(s, q)
  {
    var u := NewClientUrl(s);
    ParseGivesWellFormed(s);
    JoinWellFormedExactly(u, q);
    SlashesAgree(s, u.host + WithSlash(u.path));
    SeparatorAfterSlash(u.host + WithSlash(u.path), TrimPrefix(q, "/"));
    PrintThenParseExactly(u.(path := JoinPaths(u.path, q)));
  }

  lemma JoinWellFormedExactly(u: Url, q: string)
    requires WellFormed(u)
    ensures WellFormed(u.(path := JoinPaths(u.path, q))) <==> NoSeparator(u.host + WithSlash(u.path) + TrimPrefix(q, "/"))
  {
    JoinIsSlashed(u.path, q);
    assert JoinPaths(u.path, q)[0] == u.path[0];
    assert u.host + WithSlash(u.path) + TrimPrefix(q, "/") == u.host + JoinPaths(u.path, q);
  }

  lemma SlashesAgree(s: string, x: string)
    requires NewClientUrl(s).kind == ObjectStorage
    requires x == NewClientUrl(s).host + WithSlash(NewClientUrl(s).path)
    ensures NoSeparator(x) && x != "" && x[|x| - 1] == '/' && (HasSuffix(x, ":/") <==> HasSuffix(WithSlash(s), ":/"))
  {
    var u := NewClientUrl(s);
    ParseGivesWellFormed(s);
    SlashedPrint(s);
    SlashedConcat(u.host, u.path);
    SlashedHasNoSeparator(u.host + u.path);
    PrintIsFrontAnd(u);
    SuffixColonSlash(x);
    SuffixColonSlash(WithSlash(s));
  }

  lemma PrintIsFrontAnd(u: Url)
    requires WellFormed(u)
    ensures var x, p := u.host + WithSlash(u.path), WithSlash(Print(u));
            |x| >= 2 && |p| >= 2 && p[|p| - 2] == x[|x| - 2] && p[|p| - 1] == x[|x| - 1]
  {
    var front := u.scheme + ":" + "//" + u.host;
    SlashedConcat(front, u.path);
    SlashedConcat(u.host, u.path);
    assert front + "" == front;
    assert front + WithSlash(u.path) == u.scheme + ":" + "//" + (u.host + WithSlash(u.path));
  }

  /** A slash at the end of a string that has none there starts no "://". */
  lemma SlashedHasNoSeparator(s: string)
    requires NoSeparator(s) && s != ""
    ensures var x := WithSlash(s); NoSeparator(x) && x != "" && x[|x| - 1] == '/'
  {
    LastSlash(s);
    NoSeparatorExactly(s);
    NoSeparatorExactly(WithSlash(s));
    forall j: nat ensures SeparatorAt(WithSlash(s), j) ==> SeparatorAt(s, j) {
    }
  }

  /** Two joins that are not read back: the path holds a "://", or completes one. */
  lemma JoinsThatBreak()
    ensures !JoinsCleanly("http://h/a", "b://c") && !JoinsCleanly("http://h/a:", "//c")
  {
    assert "://" <= "b://c"[1..];
    IndexIsFirst("b://c", "://", 1);
    assert WithSlash("http://h/a:")[|WithSlash("http://h/a:")| - 2..] == ":/" by { LastSlash("http://h/a:"); }
    assert TrimPrefix("//c", "/") == "/c";
  }
}
