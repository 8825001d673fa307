// The recursive walk `listDirOpt` of the local client: what it sends, in which
// order, and exactly for which trees the files come out sorted by path.
module DirWalk {
  import opened Text
  import opened DirOrder

  datatype DirOpt = DirNone | DirFirst | DirLast

  /** What the walk sends on its channel. */
  datatype Event =
    | Entry(path: string, isDir: bool)
    | Failed(path: string, why: OpenResult)

  /** Directories are never shown in an incomplete-uploads listing. */
  function Shown(opt: DirOpt, isIncomplete: bool): DirOpt {
    if isIncomplete then DirNone else opt
  }

  /** `filepath.Join` of a clean directory path and an entry name. */
  function Join(cur: string, name: string): string {
    cur + "/" + name
  }

  /** One directory: the events sent and whether the walk must stop. */
  function WalkDir(cur: string, d: Node, sort: seq<Node> -> seq<Node>, opt: DirOpt): (seq<Event>, bool)
    requires d.Dir? && GoodSort(sort)
    decreases d, 1, 0
  {
    match d.open
    case Opened =>
      SameEntries(sort(d.children), d.children);
      WalkList(cur, d, sort(d.children), sort, opt)
    case OtherError => ([Failed(cur, d.open)], true)
    case _ => ([Failed(cur, d.open)], false)
  }

  /** The rest of the sorted entries of `d`. */
  function WalkList(cur: string, d: Node, files: seq<Node>, sort: seq<Node> -> seq<Node>, opt: DirOpt): (seq<Event>, bool)
    requires d.Dir? && GoodSort(sort)
    requires forall x :: x in files ==> x in d.children
    decreases d, 0, |files|
  {
    if files == [] then ([], false)
    else
      assert files[0] in d.children;
      var (events, stop) := WalkNode(Join(cur, files[0].name), files[0], sort, opt);
      if stop then (events, true)
      else
        var (rest, stopRest) := WalkList(cur, d, files[1..], sort, opt);
        (events + rest, stopRest)
  }

  /** One entry, with the entry of a directory before or after its contents. */
  function WalkNode(name: string, x: Node, sort: seq<Node> -> seq<Node>, opt: DirOpt): (seq<Event>, bool)
    requires GoodSort(sort)
    decreases x, 2, 0
  {
    if x.File? then ([Entry(name, false)], false)
    else
      var (inner, stop) := WalkDir(name, x, sort, opt);
      var before := if opt.DirFirst? then [Entry(name, true)] else [];
      var after := if opt.DirLast? && !stop then [Entry(name, true)] else [];
      (before + inner + after, stop)
  }

  /** The paths of the entries that are not directories, in the order sent. */
  function FilePaths(events: seq<Event>): seq<string> {
    if events == [] then []
    else (if events[0].Entry? && !events[0].isDir then [events[0].path] else []) + FilePaths(events[1..])
  }

  ghost predicate Increasing(paths: seq<string>) {
    forall i, j :: 0 <= i < j < |paths| ==> StrLess(paths[i], paths[j])
  }

  /** Proper, distinct names at every level. */
  ghost predicate WellFormed(x: Node) {
    x.Dir? ==> ValidListing(x.children) && forall c :: c in x.children ==> WellFormed(c)
  }

  /** Some file can be reached below `x`. */
  ghost predicate HasFile(x: Node) {
    x.File? || (x.open.Opened? && exists c :: c in x.children && HasFile(c))
  }

  /** Two clashing directories around two entries that hold files. */
  ghost predicate LevelTrap(s: seq<Node>) {
    exists d, e, x, z :: d in s && e in s && x in s && z in s
      && Encloses(d, e, x, z) && HasFile(x) && HasFile(z)
  }

  ghost predicate Trapped(x: Node) {
    x.Dir? && x.open.Opened? && (LevelTrap(x.children) || exists c :: c in x.children && Trapped(c))
  }

  // ---------- the walk of a part of a listing ----------

  lemma {:induction false} FilePathsOfConcat(a: seq<Event>, b: seq<Event>)
    ensures FilePaths(a + b) == FilePaths(a) + FilePaths(b)
  {
    if a == [] {
      assert a + b == b;
    } else {
      FilePathsOfConcat(a[1..], b);
      assert (a + b)[1..] == a[1..] + b;
    }
  }

  lemma FilePathsOfNode(name: string, x: Node, sort: seq<Node> -> seq<Node>, opt: DirOpt)
    requires GoodSort(sort)
    ensures x.File? ==> FilePaths(WalkNode(name, x, sort, opt).0) == [name]
    ensures x.Dir? ==> FilePaths(WalkNode(name, x, sort, opt).0) == FilePaths(WalkDir(name, x, sort, opt).0)
  {
    if x.Dir? {
      var (inner, stop) := WalkDir(name, x, sort, opt);
      var before := if opt.DirFirst? then [Entry(name, true)] else [];
      var after := if opt.DirLast? && !stop then [Entry(name, true)] else [];
      FilePathsOfConcat(before + inner, after);
      FilePathsOfConcat(before, inner);
    }
  }

  lemma FilePathsOfList(cur: string, d: Node, files: seq<Node>, sort: seq<Node> -> seq<Node>, opt: DirOpt)
    requires d.Dir? && GoodSort(sort) && files != []
    requires forall x :: x in files ==> x in d.children
    ensures var (events, stop) := WalkNode(Join(cur, files[0].name), files[0], sort, opt);
            FilePaths(WalkList(cur, d, files, sort, opt).0)
            == FilePaths(events) + (if stop then [] else FilePaths(WalkList(cur, d, files[1..], sort, opt).0))
  {
    var (events, stop) := WalkNode(Join(cur, files[0].name), files[0], sort, opt);
    if !stop { FilePathsOfConcat(events, WalkList(cur, d, files[1..], sort, opt).0); }
  }

  // ---------- where the paths below an entry lie ----------

  /** `path` is the path of entry `x` of directory `cur`, or lies below it. */
  ghost predicate Below(cur: string, x: Node, path: string) {
    if x.File? then path == Join(cur, x.name)
    else Join(cur, Key(x)) <= path
  }

  /** Entries in path order keep everything below them in path order. */
  lemma BelowKeepsOrder(cur: string, x: Node, y: Node, p: string, q: string)
    requires ValidName(x.name) && ValidName(y.name) && x.name != y.name
    requires StrLess(Key(x), Key(y)) && Below(cur, x, p) && Below(cur, y, q)
    ensures StrLess(p, q)
  {
    KeysDiffer(x, y);
    var pre := cur + "/";
    var a, b := pre + Key(x), pre + Key(y);
    StrLessUnderPrefix(pre, Key(x), Key(y));
    assert a <= p && b <= q;
    var moreP, moreQ := p[|a|..], q[|b|..];
    assert p == a + moreP && q == b + moreQ;
    if Key(x) <= Key(y) {
      assert x.File? && p == a;
      assert p < q;
      PrefixIsLess(p, q);
    } else {
      assert Key(x) == a[|pre|..] && Key(y) == b[|pre|..];
      assert !(a <= b);
      StrLessExtends(a, b, moreP, moreQ);
    }
  }

  /** Every file sent for a directory lies below it, and was reached. */
  lemma {:induction false} FilesOfDir(cur: string, d: Node, sort: seq<Node> -> seq<Node>, opt: DirOpt, p: string)
    requires d.Dir? && GoodSort(sort)
    requires p in FilePaths(WalkDir(cur, d, sort, opt).0)
    ensures cur + "/" <= p && HasFile(d)
    decreases d, 1, 0
  {
    if d.open.Opened? {
      SameEntries(sort(d.children), d.children);
      var j := FilesOfList(cur, d, sort(d.children), sort, opt, p);
      var x := sort(d.children)[j];
      assert x in sort(d.children) && x in d.children;
    }
  }

  lemma {:induction false} FilesOfList(cur: string, d: Node, files: seq<Node>, sort: seq<Node> -> seq<Node>, opt: DirOpt, p: string) returns (j: nat)
    requires d.Dir? && GoodSort(sort)
    requires forall x :: x in files ==> x in d.children
    requires p in FilePaths(WalkList(cur, d, files, sort, opt).0)
    ensures j < |files| && HasFile(files[j]) && Below(cur, files[j], p) && cur + "/" <= p
    decreases d, 0, |files|
  {
    FilePathsOfList(cur, d, files, sort, opt);
    var x := files[0];
    assert x in d.children;
    var name := Join(cur, x.name);
    FilePathsOfNode(name, x, sort, opt);
    if p in FilePaths(WalkNode(name, x, sort, opt).0) {
      j := 0;
      if x.Dir? {
        FilesOfDir(name, x, sort, opt, p);
        assert Join(cur, Key(x)) == name + "/";
      }
    } else {
      var k := FilesOfList(cur, d, files[1..], sort, opt, p);
      j := k + 1;
    }
  }

  /** Of the entries that hold files, earlier ones come first in path order. */
  ghost predicate HoldersInOrder(files: seq<Node>) {
    forall i, j :: 0 <= i < j < |files| && HasFile(files[i]) && HasFile(files[j]) ==> StrLess(Key(files[i]), Key(files[j]))
  }

  lemma NoTrapOrdersHolders(s: seq<Node>, t: seq<Node>)
    requires ValidListing(s) && multiset(s) == multiset(t) && SortedByLess(t) && !LevelTrap(s)
    ensures HoldersInOrder(t)
  {
    ValidUnderSort(s, t);
    SameEntries(s, t);
    forall i, j | 0 <= i < j < |t| && HasFile(t[i]) && HasFile(t[j])
      ensures StrLess(Key(t[i]), Key(t[j]))
    {
      KeysDiffer(t[i], t[j]);
      StrLessTotal(Key(t[i]), Key(t[j]));
      if StrLess(Key(t[j]), Key(t[i])) {
        var d, e := InversionNeedsClash(t, i, j);
        assert false;
      }
    }
  }

  lemma IncreasingConcat(a: seq<string>, b: seq<string>)
    requires Increasing(a) && Increasing(b)
    requires forall p, q :: p in a && q in b ==> StrLess(p, q)
    ensures Increasing(a + b)
  {
  }

  /** Without a trap, every sort the comparator allows sends the files in path order, read errors or not. */
  lemma {:induction false} WalkInOrder(cur: string, d: Node, sort: seq<Node> -> seq<Node>, opt: DirOpt)
    requires d.Dir? && GoodSort(sort) && WellFormed(d) && !Trapped(d)
    ensures Increasing(FilePaths(WalkDir(cur, d, sort, opt).0))
    decreases d, 1, 0
  {
    if d.open.Opened? {
      var files := sort(d.children);
      SameEntries(files, d.children);
      ValidUnderSort(d.children, files);
      NoTrapOrdersHolders(d.children, files);
      WalkListInOrder(cur, d, files, sort, opt);
    }
  }

  lemma {:induction false} WalkListInOrder(cur: string, d: Node, files: seq<Node>, sort: seq<Node> -> seq<Node>, opt: DirOpt)
    requires d.Dir? && d.open.Opened? && GoodSort(sort) && WellFormed(d) && !Trapped(d)
    requires ValidListing(files) && HoldersInOrder(files)
    requires forall x :: x in files ==> x in d.children
    ensures Increasing(FilePaths(WalkList(cur, d, files, sort, opt).0))
    decreases d, 0, |files|
  {
    if files != [] {
      var x, rest := files[0], files[1..];
      assert x in d.children;
      var name := Join(cur, x.name);
      var mine := FilePaths(WalkNode(name, x, sort, opt).0);
      var others := FilePaths(WalkList(cur, d, rest, sort, opt).0);
      FilePathsOfList(cur, d, files, sort, opt);
      FilePathsOfNode(name, x, sort, opt);
      if x.Dir? { WalkInOrder(name, x, sort, opt); }
      WalkListInOrder(cur, d, rest, sort, opt);
      forall p, q | p in mine && q in others ensures StrLess(p, q) {
        if x.Dir? {
          FilesOfDir(name, x, sort, opt, p);
          assert Join(cur, Key(x)) == name + "/";
        }
        var j := FilesOfList(cur, d, rest, sort, opt, q);
        assert rest[j] == files[j + 1];
        BelowKeepsOrder(cur, x, rest[j], p, q);
      }
      IncreasingConcat(mine, others);
    }
  }
}
