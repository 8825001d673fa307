// The local file system as the client sees it, and the removal of a path with
// its parents left empty.
module LocalFiles {
  import opened Text

  datatype Entry = DirEntry | FileEntry(content: string)

  type Tree = map<string, Entry>

  // ---------- clean paths ----------

  /** The place of the last slash, or -1. */
  function LastSlash(p: string): (i: int)
    ensures -1 <= i < |p|
    ensures i >= 0 ==> p[i] == '/'
    ensures forall j :: i < j < |p| ==> p[j] != '/'
  {
    if p == "" then -1
    else if p[|p| - 1] == '/' then |p| - 1
    else LastSlash(p[..|p| - 1])
  }

  /** `path.Dir` on clean paths. */
  function PathDir(p: string): string {
    var i := LastSlash(p);
    if i < 0 then "." else if i == 0 then "/" else p[..i]
  }

  function BaseName(p: string): string {
    p[LastSlash(p) + 1..]
  }

  /** The root, or a path with no slash at its end, no two slashes together, and
      a last part that is not "." or ".."; in a closed tree that holds of every part. */
  ghost predicate CleanPath(p: string) {
    p == "/" || (Spelled(p) && ProperName(BaseName(p)))
  }

  ghost predicate Spelled(p: string) {
    && p != "" && p[|p| - 1] != '/'
    && forall i, j :: 0 <= i < j < |p| && j == i + 1 ==> !(p[i] == '/' && p[j] == '/')
  }

  predicate ProperName(s: string) {
    s != "" && s != "." && s != ".."
  }

  /** `q` lies strictly below directory `d`. */
  predicate Under(d: string, q: string) {
    if d == "/" then "/" < q else d + "/" < q
  }

  lemma ParentIsAbove(p: string)
    requires CleanPath(p) && p != "/" && PathDir(p) != "."
    ensures (PathDir(p) == "/" || Spelled(PathDir(p))) && Under(PathDir(p), p) && |PathDir(p)| < |p|
  {
    var i := LastSlash(p);
    if i > 0 {
      assert p[..i] + "/" == p[..i + 1];
    } else {
      assert p[..1] == "/";
    }
  }

  /** Every entry but the topmost has its parent directory in the tree. */
  ghost predicate Closed(t: Tree) {
    && (forall p :: p in t ==> CleanPath(p))
    && (forall p {:trigger PathDir(p)} :: p in t && p != "/" && PathDir(p) != "." ==> PathDir(p) in t && t[PathDir(p)].DirEntry?)
  }

  ghost predicate Empty(t: Tree, d: string) {
    forall q :: q in t ==> !Under(d, q)
  }

  // ---------- removing ----------

  datatype RemoveResult = Removed | NotEmpty | NotExist | OtherError

  /** The path that the system call works on. */
  function Target(p: string): string {
    if p == "/" then p else TrimSuffix(p, "/")
  }

  /** `os.Remove`: `denied` are the paths the system refuses to remove; the root
      is never removed, and a trailing slash asks for a directory. */
  function RemoveOutcome(t: Tree, p: string, denied: set<string>): RemoveResult {
    var q := Target(p);
    if q !in t then NotExist
    else if t[q].FileEntry? && q != p then OtherError
    else if t[q].DirEntry? && exists x :: x in t && Under(q, x) then NotEmpty
    else if q in denied || q == "/" then OtherError
    else Removed
  }

  /** The paths that `deleteFile` removes, in order, and whether it reports an error. */
  function Deleted(t: Tree, basePath: string, deletePath: string, denied: set<string>): (seq<string>, bool)
    decreases |t|
  {
    match RemoveOutcome(t, deletePath, denied)
    case NotEmpty => ([], false)
    case NotExist => ([], false)
    case OtherError => ([], true)
    case Removed =>
      var q := Target(deletePath);
      var rest := t - {q};
      SmallerTree(t, q);
      var parentPath := PathDir(TrimSuffix(deletePath, "/"));
      if !HasPrefix(parentPath, basePath) || parentPath == "." then ([q], false)
      else
        var (more, failed) := Deleted(rest, basePath, parentPath, denied);
        ([q] + more, failed)
  }

  lemma SmallerTree(t: Tree, q: string)
    requires q in t
    ensures |t - {q}| < |t|
  {
    assert (t - {q}).Keys == t.Keys - {q};
    assert |(t - {q}).Keys| == |t.Keys| - 1;
  }

  function Without(t: Tree, removed: seq<string>): Tree {
    t - (set x | x in removed)
  }

  lemma WithoutStep(t: Tree, removed: seq<string>)
    requires removed != []
    ensures Without(t, removed) == Without(t - {removed[0]}, removed[1..])
  {
    assert (set x | x in removed) == {removed[0]} + (set x | x in removed[1..]);
  }

  lemma WithoutOneMore(t: Tree, q: string, more: seq<string>)
    ensures Without(t, []) == t
    ensures Without(t, [q]) == t - {q}
    ensures Without(t, [q] + more) == Without(t - {q}, more)
  {
    WithoutStep(t, [q] + more);
    assert ([q] + more)[1..] == more;
    assert (set x | x in [q]) == {q};
  }

  class FileSystem {
    var entries: Tree

    constructor (t: Tree)
      ensures entries == t
    {
      entries := t;
    }

    method Remove(path: string, denied: set<string>) returns (r: RemoveResult)
      modifies this
      ensures r == RemoveOutcome(old(entries), path, denied)
      ensures entries == if r.Removed? then old(entries) - {Target(path)} else old(entries)
    {
      r := RemoveOutcome(entries, path, denied);
      if r.Removed? { entries := entries - {Target(path)}; }
    }

    /** `deleteFile`: each further call follows a removal, so the tree gets smaller. */
    method DeleteFile(basePath: string, deletePath: string, denied: set<string>) returns (failed: bool, removed: seq<string>)
      modifies this
      ensures (removed, failed) == Deleted(old(entries), basePath, deletePath, denied)
      ensures entries == Without(old(entries), removed)
      decreases |entries|
    {
      WithoutOneMore(entries, Target(deletePath), []);
      var e := Remove(deletePath, denied);
      if e != Removed { return e.OtherError?, []; }
      SmallerTree(old(entries), Target(deletePath));
      removed := [Target(deletePath)];
      var parentPath := TrimSuffix(deletePath, "/");
      parentPath := PathDir(parentPath);
      if !HasPrefix(parentPath, basePath) { return false, removed; }
      if parentPath != "." {
        var more;
        failed, more := DeleteFile(basePath, parentPath, denied);
        removed := removed + more;
        WithoutOneMore(old(entries), Target(deletePath), more);
        return;
      }
      return false, removed;
    }
  }

  // ---------- what is removed ----------

  lemma RemovingEmptyKeepsClosed(t: Tree, q: string)
    requires Closed(t) && Empty(t, q)
    ensures Closed(t - {q})
  {
    forall p | p in t - {q} && p != "/" && PathDir(p) != "." ensures PathDir(p) in t - {q} {
      ParentIsAbove(p);
    }
  }

  lemma FilesAreEmpty(t: Tree, q: string)
    requires Closed(t) && q in t && t[q].FileEntry?
    ensures Empty(t, q)
  {
    forall x | x in t ensures !Under(q, x) {
      if Under(q, x) { NothingUnderFile(t, q, x); }
    }
  }

  lemma {:induction false} NothingUnderFile(t: Tree, q: string, x: string)
    requires Closed(t) && q in t && t[q].FileEntry? && x in t
    ensures !Under(q, x)
    decreases |x|
  {
    if Under(q, x) {
      AboveIsParentOrHigher(q, x);
      var d := PathDir(x);
      if d != q { NothingUnderFile(t, q, d); }
    }
  }

  /** A clean path below `q` has `q` as its parent, or its parent is below `q` too. */
  lemma AboveIsParentOrHigher(q: string, x: string)
    requires CleanPath(x) && CleanPath(q) && Under(q, x)
    ensures x != "/" && PathDir(x) != "." && |PathDir(x)| < |x| && (PathDir(x) == q || Under(q, PathDir(x)))
  {
    var i := LastSlash(x);
    if q == "/" {
      assert x[0] == '/' && i >= 0;
      if i > 0 { assert x[..i][0] == '/'; }
    } else {
      BelowProper(q, x);
    }
  }

  lemma BelowProper(q: string, x: string)
    requires CleanPath(x) && q != "" && q != "." && q + "/" < x
    ensures x != "/" && PathDir(x) != "." && |PathDir(x)| < |x| && (PathDir(x) == q || q + "/" < PathDir(x))
  {
    var i, n := LastSlash(x), |q|;
    assert x[n] == (q + "/")[n] == '/' && i >= n;
    assert x[..n] == (q + "/")[..n] == q;
    if i > n {
      assert x[..i][..n + 1] == x[..n + 1] == q + "/";

    }
  }

  // ---------- the chain of removals ----------

  /** A chain of removals: each path is the parent of the one before, was there,
      and had nothing below it when its turn came; after the first, each has the
      base path as a prefix; the tree stays closed throughout. */
  ghost predicate IsChain(t: Tree, basePath: string, first: string, removed: seq<string>)
    decreases |removed|
  {
    && Closed(t)
    && (removed != [] ==>
          && removed[0] == first && first in t && first != "/" && Empty(t, first)
          && (|removed| > 1 ==> HasPrefix(PathDir(first), basePath) && PathDir(first) != ".")
          && IsChain(t - {first}, basePath, PathDir(first), removed[1..]))
  }

  lemma TrimKeepsClean(p: string)
    requires Spelled(p)
    ensures TrimSuffix(p, "/") == p && Target(p) == p
  {
  }

  /** A path to delete: clean, possibly with one trailing slash. */
  ghost predicate Deletable(p: string) {
    CleanPath(Target(p)) && (p == "/" || Target(p) != "/")
  }

  lemma TargetIsTrimmed(p: string)
    requires Deletable(p) && p != "/"
    ensures TrimSuffix(p, "/") == Target(p)
  {
  }

  /** What a chain of removals leaves. */
  lemma {:induction false} ChainKeepsClosed(t: Tree, basePath: string, first: string, removed: seq<string>)
    requires IsChain(t, basePath, first, removed)
    ensures Closed(Without(t, removed))
  {
    if removed == [] {
      assert Without(t, removed) == t;
    } else {
      ChainKeepsClosed(t - {first}, basePath, PathDir(first), removed[1..]);
      WithoutStep(t, removed);
    }
  }

  /** No further parent could go: the deletion stops at a parent outside the base
      path, at the root, at a parent that still has something in it, or at an error. */
  ghost predicate StopsAt(left: Tree, basePath: string, last: string, failed: bool) {
    var parent := PathDir(last);
    failed || parent == "." || !HasPrefix(parent, basePath) || (parent in left && !Empty(left, parent))
  }

  lemma {:induction false} DeletionIsMaximal(t: Tree, basePath: string, deletePath: string, denied: set<string>,
                                             removed: seq<string>, failed: bool)
    requires Closed(t) && Deletable(deletePath)
    requires Deleted(t, basePath, deletePath, denied) == (removed, failed) && removed != []
    ensures StopsAt(Without(t, removed), basePath, removed[|removed| - 1], failed)
    decreases |t|
  {
    var q := Target(deletePath);
    if HasPrefix(PathDir(q), basePath) && PathDir(q) != "." {
      var more := AfterFirst(t, basePath, deletePath, denied, removed, failed);
      if more != [] { DeletionIsMaximal(t - {q}, basePath, PathDir(q), denied, more, failed); }
      StopsAfterFirst(t, basePath, q, more, failed);
    } else {
      LastStep(t, basePath, deletePath, denied, removed, failed);
    }
  }

  lemma LastStep(t: Tree, basePath: string, deletePath: string, denied: set<string>, removed: seq<string>, failed: bool)
    requires Deletable(deletePath)
    requires Deleted(t, basePath, deletePath, denied) == (removed, failed) && removed != []
    requires var parent := PathDir(Target(deletePath)); !HasPrefix(parent, basePath) || parent == "."
    ensures removed == [Target(deletePath)] && RemoveOutcome(t, deletePath, denied) == Removed
  {
    TargetIsTrimmed(deletePath);
  }

  lemma StopsAfterFirst(t: Tree, basePath: string, q: string, more: seq<string>, failed: bool)
    requires more != [] ==> StopsAt(Without(t - {q}, more), basePath, more[|more| - 1], failed)
    requires more == [] ==> StopsAt(t - {q}, basePath, q, failed)
    ensures var removed := [q] + more; StopsAt(Without(t, removed), basePath, removed[|removed| - 1], failed)
  {
    var removed := [q] + more;
    WithoutStep(t, removed);
    assert removed[1..] == more;
    if more == [] { assert Without(t - {q}, []) == t - {q}; }
  }

  /** The removals after the first one are those of the parent. */
  lemma AfterFirst(t: Tree, basePath: string, deletePath: string, denied: set<string>, removed: seq<string>, failed: bool)
    returns (more: seq<string>)
    requires Closed(t) && Deletable(deletePath)
    requires Deleted(t, basePath, deletePath, denied) == (removed, failed) && removed != []
    requires var parent := PathDir(Target(deletePath)); HasPrefix(parent, basePath) && parent != "."
    ensures var q := Target(deletePath);
            && q in t && |t - {q}| < |t| && Closed(t - {q}) && Deletable(PathDir(q))
            && removed == [q] + more && Deleted(t - {q}, basePath, PathDir(q), denied) == (more, failed)
            && (more == [] ==> StopsAt(t - {q}, basePath, q, failed))
    ensures RemoveOutcome(t, deletePath, denied) == Removed
  {
    var q := Target(deletePath);
    FirstRemoval(t, deletePath, denied);
    ParentIsNext(t, q);
    TargetIsTrimmed(deletePath);
    more := Deleted(t - {q}, basePath, PathDir(q), denied).0;
    StopsAtParent(t - {q}, PathDir(q), denied);
  }

  lemma FirstRemoval(t: Tree, deletePath: string, denied: set<string>)
    requires Closed(t) && RemoveOutcome(t, deletePath, denied) == Removed
    ensures var q := Target(deletePath); q in t && |t - {q}| < |t| && Closed(t - {q})
  {
    var q := Target(deletePath);
    SmallerTree(t, q);
    RemovedIsEmpty(t, deletePath, denied);
    RemovingEmptyKeepsClosed(t, q);
  }

  lemma ParentIsNext(t: Tree, q: string)
    requires Closed(t) && q in t && q != "/" && PathDir(q) != "."
    ensures Deletable(PathDir(q)) && Target(PathDir(q)) == PathDir(q)
    ensures PathDir(q) in t - {q} && t[PathDir(q)].DirEntry?
  {
    ParentIsAbove(q);
    if PathDir(q) != "/" { TrimKeepsClean(PathDir(q)); }
  }

  lemma RemovedIsEmpty(t: Tree, deletePath: string, denied: set<string>)
    requires Closed(t) && RemoveOutcome(t, deletePath, denied) == Removed
    ensures var q := Target(deletePath); q in t && q != "/" && Empty(t, q)
  {
    var q := Target(deletePath);
    if t[q].FileEntry? { FilesAreEmpty(t, q); }
  }

  lemma StopsAtParent(t: Tree, parent: string, denied: set<string>)
    requires Target(parent) == parent && parent in t && t[parent].DirEntry?
    ensures RemoveOutcome(t, parent, denied) == NotEmpty ==> !Empty(t, parent)
    ensures RemoveOutcome(t, parent, denied) != NotExist
  {
  }

  /** Every run of `deleteFile` on a closed tree removes such a chain. */
  lemma {:induction false} DeletionIsChain(t: Tree, basePath: string, deletePath: string, denied: set<string>,
                                           removed: seq<string>, failed: bool)
    requires Closed(t) && Deletable(deletePath)
    requires Deleted(t, basePath, deletePath, denied) == (removed, failed)
    ensures IsChain(t, basePath, Target(deletePath), removed)
    decreases |t|
  {
    if removed != [] {
      var parent := PathDir(Target(deletePath));
      if HasPrefix(parent, basePath) && parent != "." {
        var more := AfterFirst(t, basePath, deletePath, denied, removed, failed);
        DeletionIsChain(t - {Target(deletePath)}, basePath, parent, denied, more, failed);
        RestIsChain(t, basePath, deletePath, denied, more);
      } else {
        LastStep(t, basePath, deletePath, denied, removed, failed);
        OneIsChain(t, basePath, deletePath, denied);
      }
    } else {
      assert IsChain(t, basePath, Target(deletePath), []);
    }
  }

  lemma OneIsChain(t: Tree, basePath: string, deletePath: string, denied: set<string>)
    requires Closed(t) && RemoveOutcome(t, deletePath, denied) == Removed
    ensures IsChain(t, basePath, Target(deletePath), [Target(deletePath)])
  {
    var q := Target(deletePath);
    FirstRemoval(t, deletePath, denied);
    RemovedIsEmpty(t, deletePath, denied);
    LongerChain(t, basePath, q, []);
    assert [q] + [] == [q];
  }

  lemma RestIsChain(t: Tree, basePath: string, deletePath: string, denied: set<string>, more: seq<string>)
    requires Closed(t) && RemoveOutcome(t, deletePath, denied) == Removed
    requires var q := Target(deletePath);
             HasPrefix(PathDir(q), basePath) && PathDir(q) != "." && IsChain(t - {q}, basePath, Target(PathDir(q)), more)
    ensures IsChain(t, basePath, Target(deletePath), [Target(deletePath)] + more)
  {
    RemovedIsEmpty(t, deletePath, denied);
    ParentIsNext(t, Target(deletePath));
    LongerChain(t, basePath, Target(deletePath), more);
  }

  lemma LongerChain(t: Tree, basePath: string, first: string, more: seq<string>)
    requires Closed(t) && first in t && first != "/" && Empty(t, first)
    requires more != [] ==> HasPrefix(PathDir(first), basePath) && PathDir(first) != "."
    requires IsChain(t - {first}, basePath, PathDir(first), more)
    ensures IsChain(t, basePath, first, [first] + more)
  {
    assert ([first] + more)[1..] == more;
  }

  /** At or below the base path, which may end in a slash. */
  predicate Inside(basePath: string, x: string) {
    x == Target(basePath) || Under(Target(basePath), x)
  }

  /** Upwards the string prefix does not leave the base path, and downwards nothing does. */
  lemma InsideAndParent(basePath: string, first: string)
    requires Deletable(basePath) && CleanPath(first) && first != "/" && PathDir(first) != "."
    ensures Inside(basePath, first) && HasPrefix(PathDir(first), basePath) ==> Inside(basePath, PathDir(first))
    ensures Inside(basePath, PathDir(first)) ==> Inside(basePath, first)
  {
    ParentIsAbove(first);
    var base, parent := Target(basePath), PathDir(first);
    if Under(base, first) { AboveIsParentOrHigher(base, first); }
    if Under(base, parent) { UnderParent(base, parent, first); }
  }

  lemma UnderParent(base: string, parent: string, first: string)
    requires Under(base, parent) && Under(parent, first)
    ensures Under(base, first)
  {
    assert parent <= first && |base| < |parent|;
  }

  lemma ChainStep(t: Tree, basePath: string, first: string, removed: seq<string>)
    requires IsChain(t, basePath, first, removed) && |removed| > 1
    ensures CleanPath(first) && first != "/" && HasPrefix(PathDir(first), basePath) && PathDir(first) != "."
    ensures IsChain(t - {first}, basePath, PathDir(first), removed[1..])
  {
  }

  /** Deleting below the base path stays at or below it: the comparison by string
      prefix is then a comparison by directories. */
  lemma {:induction false} DeletionStaysInside(t: Tree, basePath: string, first: string, removed: seq<string>, i: nat)
    requires IsChain(t, basePath, first, removed) && i < |removed|
    requires Deletable(basePath) && Inside(basePath, first)
    ensures Inside(basePath, removed[i])
  {
    if i > 0 {
      ChainStep(t, basePath, first, removed);
      InsideAndParent(basePath, first);
      DeletionStaysInside(t - {first}, basePath, PathDir(first), removed[1..], i - 1);
    }
  }

  /** The first two paths that are removed. */
  lemma FirstTwo(t: Tree, basePath: string, deletePath: string, denied: set<string>)
    requires Closed(t) && Deletable(deletePath)
    ensures var q, removed := Target(deletePath), Deleted(t, basePath, deletePath, denied).0;
            && (removed != [] <==> RemoveOutcome(t, deletePath, denied) == Removed)
            && (removed != [] ==> removed[0] == q && CleanPath(q) && q != "/")
            && (|removed| > 1 <==> removed != [] && HasPrefix(PathDir(q), basePath) && PathDir(q) != "."
                                   && RemoveOutcome(t - {q}, PathDir(q), denied) == Removed)
            && (|removed| > 1 ==> removed[1] == PathDir(q))
  {
    DeletedOnce(t, basePath, deletePath, denied);
    if RemoveOutcome(t, deletePath, denied) == Removed {
      var q := Target(deletePath);
      RemovedTarget(t, deletePath, denied);
      DeletedOnce(t - {q}, basePath, PathDir(q), denied);
    }
  }

  lemma RemovedTarget(t: Tree, deletePath: string, denied: set<string>)
    requires Closed(t) && Deletable(deletePath) && RemoveOutcome(t, deletePath, denied) == Removed
    ensures var q := Target(deletePath);
            CleanPath(q) && q != "/" && TrimSuffix(deletePath, "/") == q && (PathDir(q) != "." ==> Target(PathDir(q)) == PathDir(q))
  {
    var q := Target(deletePath);
    RemovedIsEmpty(t, deletePath, denied);
    TargetIsTrimmed(deletePath);
    if PathDir(q) != "." { ParentIsNext(t, q); }
  }

  lemma DeletedOnce(t: Tree, basePath: string, deletePath: string, denied: set<string>)
    ensures var q, removed := Target(deletePath), Deleted(t, basePath, deletePath, denied).0;
            var parent := PathDir(TrimSuffix(deletePath, "/"));
            if RemoveOutcome(t, deletePath, denied) != Removed then removed == []
            else if !HasPrefix(parent, basePath) || parent == "." then removed == [q]
            else removed == [q] + Deleted(t - {q}, basePath, parent, denied).0
  {
  }

  /** The path to remove next is there and no directory with something under it, but
      it is denied, or the root, or a file asked for with a slash at its end. */
  ghost predicate CannotGo(left: Tree, p: string, denied: set<string>) {
    var q := Target(p);
    && q in left && !(left[q].DirEntry? && !Empty(left, q))
    && (q in denied || q == "/" || (left[q].FileEntry? && q != p))
  }

  /** The path that comes after these removals: the one asked for, then parents that
      keep the base path as prefix. */
  ghost predicate FailsNext(left: Tree, basePath: string, deletePath: string, removed: seq<string>, denied: set<string>) {
    if removed == [] then CannotGo(left, deletePath, denied)
    else
      var parent := PathDir(removed[|removed| - 1]);
      HasPrefix(parent, basePath) && parent != "." && CannotGo(left, parent, denied)
  }

  /** An error is reported if and only if the next path cannot go: a parent that is
      not empty, that is gone or that lies outside the base path is no error. */
  lemma {:induction false} FailsExactly(t: Tree, basePath: string, deletePath: string, denied: set<string>)
    requires Closed(t) && Deletable(deletePath)
    ensures var (removed, failed) := Deleted(t, basePath, deletePath, denied);
            failed <==> FailsNext(Without(t, removed), basePath, deletePath, removed, denied)
    decreases |t|
  {
    DeletedOnce(t, basePath, deletePath, denied);
    FailedOnce(t, basePath, deletePath, denied);
    WithoutOneMore(t, Target(deletePath), []);
    if RemoveOutcome(t, deletePath, denied) == Removed {
      var q := Target(deletePath);
      RemovedTarget(t, deletePath, denied);
      FirstRemoval(t, deletePath, denied);
      if HasPrefix(PathDir(q), basePath) && PathDir(q) != "." {
        RemovedIsEmpty(t, deletePath, denied);
        ParentIsNext(t, q);
        FailsExactly(t - {q}, basePath, PathDir(q), denied);
        FailsLater(t, basePath, q, Deleted(t - {q}, basePath, PathDir(q), denied).0, denied);
      }
    }
  }

  lemma FailsLater(t: Tree, basePath: string, q: string, more: seq<string>, denied: set<string>)
    requires HasPrefix(PathDir(q), basePath) && PathDir(q) != "."
    ensures Without(t, [q] + more) == Without(t - {q}, more)
    ensures FailsNext(Without(t, [q] + more), basePath, q, [q] + more, denied)
       <==> FailsNext(Without(t - {q}, more), basePath, PathDir(q), more, denied)
  {
    WithoutStep(t, [q] + more);
    assert ([q] + more)[1..] == more;
  }

  lemma FailedOnce(t: Tree, basePath: string, deletePath: string, denied: set<string>)
    ensures var failed, parent := Deleted(t, basePath, deletePath, denied).1, PathDir(TrimSuffix(deletePath, "/"));
            if RemoveOutcome(t, deletePath, denied) != Removed then failed <==> CannotGo(t, deletePath, denied)
            else if !HasPrefix(parent, basePath) || parent == "." then !failed
            else failed == Deleted(t - {Target(deletePath)}, basePath, parent, denied).1
  {
  }

  /** Deleting a file of a directory that holds another one is no error. */
  lemma NonEmptyParentIsNoError()
    ensures var t: Tree := map["/" := DirEntry, "/d" := DirEntry, "/d/x" := FileEntry(""), "/d/y" := FileEntry("")];
            Deleted(t, "/d", "/d/x", {}) == (["/d/x"], false)
  {
    var t: Tree := map["/" := DirEntry, "/d" := DirEntry, "/d/x" := FileEntry(""), "/d/y" := FileEntry("")];
    assert RemoveOutcome(t, "/d/x", {}) == Removed;
    SlashAt("/d/x", 2);
    assert PathDir("/d/x") == "/d";
    var rest := t - {"/d/x"};
    assert "/d/y" in rest && "/d" + "/" < "/d/y" && Under("/d", "/d/y");
    assert RemoveOutcome(rest, "/d", {}) == NotEmpty;
    assert "/d/x"[3] == 'x' && TrimSuffix("/d/x", "/") == "/d/x";
    assert Deleted(rest, "/d", "/d", {}) == ([], false);
    assert Target("/d/x") == "/d/x" && ["/d/x"] + [] == ["/d/x"] && HasPrefix("/d", "/d");
  }

  /** Nothing outside the base path is removed if and only if nothing is removed at
      all or the first path lies inside.  A parent outside goes exactly when the
      deleted path lies outside, its parent has the base path as string prefix, and
      the parent can be removed after it. */
  lemma RemovedOutsideExactly(t: Tree, basePath: string, deletePath: string, denied: set<string>)
    requires Closed(t) && Deletable(deletePath) && Deletable(basePath)
    ensures var q, removed := Target(deletePath), Deleted(t, basePath, deletePath, denied).0;
            && ((forall i :: 0 <= i < |removed| ==> Inside(basePath, removed[i])) <==> removed == [] || Inside(basePath, q))
            && ((exists i :: 0 < i < |removed| && !Inside(basePath, removed[i])) <==>
                  && RemoveOutcome(t, deletePath, denied) == Removed && !Inside(basePath, q)
                  && HasPrefix(PathDir(q), basePath) && PathDir(q) != "."
                  && RemoveOutcome(t - {q}, PathDir(q), denied) == Removed)
  {
    var (removed, failed) := Deleted(t, basePath, deletePath, denied);
    DeletionIsChain(t, basePath, deletePath, denied, removed, failed);
    FirstTwo(t, basePath, deletePath, denied);
    InsideByFirst(t, basePath, Target(deletePath), removed);
  }

  lemma InsideByFirst(t: Tree, basePath: string, first: string, removed: seq<string>)
    requires IsChain(t, basePath, first, removed) && Deletable(basePath)
    ensures (forall i :: 0 <= i < |removed| ==> Inside(basePath, removed[i])) <==> removed == [] || Inside(basePath, first)
    ensures (exists i :: 0 < i < |removed| && !Inside(basePath, removed[i])) <==> |removed| > 1 && !Inside(basePath, first)
  {
    if removed != [] && Inside(basePath, first) {
      forall i | 0 <= i < |removed| ensures Inside(basePath, removed[i]) {
        DeletionStaysInside(t, basePath, first, removed, i);
      }
    } else if |removed| > 1 {
      ChainStep(t, basePath, first, removed);
      InsideAndParent(basePath, first);
      assert removed[1] == removed[1..][0] == PathDir(first);
    }
  }

  /** Outside it the prefix test can reach a sibling: with base path "/d/a", the
      empty directory "/d/ab" goes with its only file. */
  lemma SiblingIsRemoved()
    ensures var t: Tree := map["/" := DirEntry, "/d" := DirEntry, "/d/ab" := DirEntry, "/d/ab/x" := FileEntry("")];
            "/d/ab" in Deleted(t, "/d/a", "/d/ab/x", {}).0
  {
    var t: Tree := map["/" := DirEntry, "/d" := DirEntry, "/d/ab" := DirEntry, "/d/ab/x" := FileEntry("")];
    assert RemoveOutcome(t, "/d/ab/x", {}) == Removed;
    SlashAt("/d/ab/x", 5);
    assert PathDir("/d/ab/x") == "/d/ab";
    var rest := t - {"/d/ab/x"};
    assert !Under("/d/ab", "/d/ab") && !Under("/d/ab", "/d") && !Under("/d/ab", "/");
    assert RemoveOutcome(rest, "/d/ab", {}) == Removed;
  }

  lemma SlashAt(p: string, i: nat)
    requires i < |p| && p[i] == '/' && forall j :: i < j < |p| ==> p[j] != '/'
    ensures LastSlash(p) == i
  {
  }
}
