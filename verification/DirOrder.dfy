// The order in which the local client reads a directory: `byDirName.Less`,
// `readDir`, and exactly when a sorted listing is in true path order.
module DirOrder {
  import opened Text

  /** What opening and reading a directory gives. */
  datatype OpenResult = Opened | NotExist | Permission | OtherError

  /** An entry of a directory.  The children of a directory are listed as the
      operating system returns them, in any order; anything that is not a
      directory (a symbolic link too) is a `File`. */
  datatype Node =
    | File(name: string)
    | Dir(name: string, open: OpenResult, children: seq<Node>)

  /** `byDirName.Less`: the separator is added on one side only. */
  predicate Less(x: Node, y: Node) {
    if x.Dir? then StrLess(x.name + "/", y.name)
    else if y.Dir? then StrLess(x.name, y.name + "/")
    else StrLess(x.name, y.name)
  }

  /** The position of an entry in path order: a directory stands where its contents stand. */
  function Key(x: Node): string {
    if x.Dir? then x.name + "/" else x.name
  }

  predicate ValidName(s: string) {
    s != "" && '/' !in s
  }

  /** The pairs `Less` gets wrong: two directories, the name of `e` is the name of
      `d` followed by a byte below the separator.  In path order `e` comes first. */
  predicate Clash(d: Node, e: Node) {
    && d.Dir? && e.Dir? && d.name < e.name
    && e.name[|d.name|] < '/'
  }

  lemma KeysDiffer(x: Node, y: Node)
    requires ValidName(x.name) && ValidName(y.name) && x.name != y.name
    ensures Key(x) != Key(y)
    ensures x.Dir? ==> !(Key(x) <= Key(y))
  {
    assert Key(x)[..|x.name|] == x.name && Key(y)[..|y.name|] == y.name;
    assert x.Dir? ==> Key(x)[|x.name|] == '/';
    if x.Dir? && Key(x) <= Key(y) {
      assert false;
    }
  }

  /** `Less` is path order on all pairs but the clashing ones, which it leaves unordered. */
  lemma LessExactly(x: Node, y: Node)
    requires ValidName(x.name) && ValidName(y.name)
    ensures Less(x, y) <==> StrLess(Key(x), Key(y)) && !Clash(y, x)
  {
    if x.Dir? && y.Dir? {
      var a, b := x.name + "/", y.name;
      if StrLess(a, b) {
        PrefixIsLess(b, Key(y));
        StrLessTransitive(a, b, Key(y));
        if Clash(y, x) {
          assert b < a;
          PrefixIsLess(b, a);
          StrLessTotal(a, b);
          assert false;
        }
      } else if StrLess(a, Key(y)) {
        var k := FirstDifference(a, Key(y));
        if k < |b| {
          assert a[..k] == b[..k];
          LessFromDifference(a, b, k);
          assert false;
        } else {
          assert k == |b| && a[..k] == Key(y)[..k] == b;
          assert a[|x.name|] == '/' && Key(y)[k] == '/';
          assert k <= |x.name|;
          assert x.name[..k] == a[..k];
        }
      }
    }
  }

  /** What `sort.Sort(byDirName(list))` may return: the same entries, and no
      neighbours that `Less` puts the other way round. */
  ghost predicate SortedByLess(s: seq<Node>) {
    forall i, j :: 0 <= i < j < |s| && j == i + 1 ==> !Less(s[j], s[i])
  }

  ghost predicate GoodSort(sort: seq<Node> -> seq<Node>) {
    forall l {:trigger sort(l)} :: multiset(sort(l)) == multiset(l) && SortedByLess(sort(l))
  }

  /** The entries of one directory: proper names, each name once. */
  predicate ValidListing(s: seq<Node>) {
    && (forall i :: 0 <= i < |s| ==> ValidName(s[i].name))
    && (forall i, j :: 0 <= i < j < |s| ==> s[i].name != s[j].name)
  }

  lemma SameEntries(s: seq<Node>, t: seq<Node>)
    requires multiset(s) == multiset(t)
    ensures |s| == |t|
    ensures forall x :: x in s <==> x in t
  {
    assert |s| == |multiset(s)| == |multiset(t)| == |t|;
    forall x ensures x in s <==> x in t {
      assert x in s <==> x in multiset(s);
      assert x in t <==> x in multiset(t);
    }
  }

  lemma ValidUnderSort(s: seq<Node>, t: seq<Node>)
    requires ValidListing(s) && multiset(s) == multiset(t)
    ensures ValidListing(t)
  {
    SameEntries(s, t);
    forall i | 0 <= i < |t| ensures ValidName(t[i].name) {
      assert t[i] in s;
    }
    forall i, j | 0 <= i < j < |t| ensures t[i].name != t[j].name {
      assert t[i] in s && t[j] in s;
      if t[i].name == t[j].name {
        var a :| 0 <= a < |s| && s[a] == t[i];
        var b :| 0 <= b < |s| && s[b] == t[j];
        assert a == b;
        MultiplicityAtLeastTwo(t, i, j);
        MultiplicityAtMostOne(s, t[i]);
        assert false;
      }
    }
  }

  lemma MultiplicityAtLeastTwo(t: seq<Node>, i: nat, j: nat)
    requires i < j < |t| && t[i] == t[j]
    ensures multiset(t)[t[i]] >= 2
  {
    assert t == t[..i] + [t[i]] + t[i + 1..j] + [t[j]] + t[j + 1..];
  }

  lemma {:induction false} MultiplicityAtMostOne(s: seq<Node>, x: Node)
    requires forall i, j :: 0 <= i < j < |s| ==> s[i] != s[j]
    ensures multiset(s)[x] <= 1
  {
    if s != [] {
      MultiplicityAtMostOne(s[1..], x);
      assert s == [s[0]] + s[1..];
      if s[0] == x {
        assert x !in s[1..];
        assert multiset(s[1..])[x] == 0;
      }
    }
  }

  /** A directory pair that a sort may leave the wrong way round, around two places `x`, `z` in path order. */
  predicate Encloses(d: Node, e: Node, x: Node, z: Node) {
    Clash(d, e) && StrLeq(Key(e), Key(z)) && StrLess(Key(z), Key(x)) && StrLeq(Key(x), Key(d))
  }

  /** Names between the two directories of a clash continue the shorter name with a byte below '/'. */
  lemma BetweenClash(d: Node, e: Node, y: Node)
    requires Clash(d, e) && ValidName(d.name) && ValidName(e.name) && ValidName(y.name)
    requires StrLeq(Key(e), Key(y)) && StrLess(Key(y), Key(d))
    ensures d.name < y.name && y.name[|d.name|] < '/'
  {
    var k := FirstDifference(Key(y), Key(d));
    var n := |d.name|;
    if Key(e) == Key(y) {
      KeyDeterminesName(e, y);
    } else if k < n {
      assert Key(e)[..n] == d.name == Key(d)[..n];
      if k < |Key(y)| {
        assert Key(y)[..k] == Key(d)[..k] == Key(e)[..k] by {
          assert Key(d)[..k] == Key(d)[..n][..k] && Key(e)[..k] == Key(e)[..n][..k];
        }
        assert Key(e)[k] == Key(e)[..n][k] == Key(d)[..n][k] == Key(d)[k];
        LessFromDifference(Key(y), Key(e), k);
      } else {
        assert Key(y) == Key(d)[..k] == Key(e)[..n][..k] == Key(e)[..k];
        PrefixIsLess(Key(y), Key(e));
      }
      StrLessTotal(Key(y), Key(e));
      assert false;
    } else {
      assert k == n && Key(y)[..n] == d.name;
      if n < |Key(y)| {
        assert Key(y)[n] < '/';
        if |y.name| == n { assert false; }
        assert y.name[..n] == Key(y)[..n];
      } else {
        assert Key(y) == d.name;
        assert Key(y) < Key(e);
        PrefixIsLess(Key(y), Key(e));
        StrLessTotal(Key(y), Key(e));
        assert false;
      }
    }
  }

  lemma KeyDeterminesName(x: Node, y: Node)
    requires ValidName(x.name) && ValidName(y.name) && Key(x) == Key(y)
    ensures x.name == y.name
  {
    if x.name != y.name { KeysDiffer(x, y); }
  }

  /** An inversion in a sorted listing is always explained by one clashing pair that encloses it. */
  lemma {:induction false} InversionNeedsClash(s: seq<Node>, i: nat, j: nat) returns (d: Node, e: Node)
    requires ValidListing(s) && SortedByLess(s)
    requires i < j < |s| && StrLess(Key(s[j]), Key(s[i]))
    ensures d in s && e in s && Encloses(d, e, s[i], s[j])
    decreases j - i
  {
    var k := j - 1;
    LessExactly(s[j], s[k]);
    assert !Less(s[j], s[k]);
    if k == i {
      d, e := s[i], s[j];
    } else {
      KeysDiffer(s[j], s[k]);
      StrLessTotal(Key(s[k]), Key(s[j]));
      StrLessTotal(Key(s[k]), Key(s[i]));
      KeysDiffer(s[k], s[i]);
      if StrLess(Key(s[k]), Key(s[j])) {
        StrLessTransitive(Key(s[k]), Key(s[j]), Key(s[i]));
        d, e := InversionNeedsClash(s, i, k);
        LeqTransitive(Key(e), Key(s[k]), Key(s[j]));
      } else if StrLess(Key(s[i]), Key(s[k])) {
        d, e := s[k], s[j];
      } else {
        var d1, e1 := InversionNeedsClash(s, i, k);
        LeqLess(Key(s[k]), Key(s[i]), Key(d1));
        BetweenClash(d1, e1, s[k]);
        assert s[j].name[|d1.name|] == s[k].name[|d1.name|];
        d, e := d1, s[j];
      }
    }
  }

  lemma LeqTransitive(a: string, b: string, c: string)
    requires StrLeq(a, b) && StrLeq(b, c)
    ensures StrLeq(a, c)
  {
    if StrLess(a, b) && StrLess(b, c) { StrLessTransitive(a, b, c); }
  }

  lemma LeqLess(a: string, b: string, c: string)
    requires StrLess(a, b) && StrLeq(b, c)
    ensures StrLess(a, c)
  {
    if StrLess(b, c) { StrLessTransitive(a, b, c); }
  }
}
