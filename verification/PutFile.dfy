// Writing a local file: copy to a temporary file beside the destination, check
// the size, commit by rename, remove the temporary file whatever happens.
module PutFile {
  import opened Text
  import opened LocalFiles
  import opened PrettyFilter
  import opened PrettyOutput

  // ---------- path lengths ----------

  function BytesOf(s: string): seq<Byte> {
    seq(|s|, i requires 0 <= i < |s| => s[i] as int % 256)
  }

  const SlashRune := 0x2F

  /** Stretches without a slash are at most 255 characters long; characters, not bytes. */
  ghost predicate SegmentsFit(runes: seq<int>) {
    forall i, j :: 0 <= i <= j <= |runes| && SlashRune !in runes[i..j] ==> j - i <= 255
  }

  ghost predicate AllowedPath(path: string) {
    path != "." && path != ".." && path != "/" && SegmentsFit(Runes(BytesOf(path)))
  }

  /** `checkPathLength` on Unix. */
  method CheckPathLength(pathName: string) returns (ok: bool)
    ensures ok <==> AllowedPath(pathName)
  {
    if pathName == "." || pathName == ".." || pathName == "/" { return false; }
    ghost var all := Runes(BytesOf(pathName));
    ghost var seen: seq<int> := [];
    var left := BytesOf(pathName);
    var count := 0;
    while left != []
      invariant seen + Runes(left) == all
      invariant count <= 255 && CountsTail(seen, count) && SegmentsFit(seen)
      decreases |left|
    {
      var (p, n) := Decode(left);
      assert seen + Runes(left) == (seen + [p]) + Runes(left[n..]);
      left := left[n..];
      ghost var before := count;
      if p == SlashRune { count := 0; } else { count := count + 1; }
      OneMoreRune(seen, before, p);
      seen := seen + [p];
      if count > 255 {
        TooLong(seen, count, all);
        return false;
      }
    }
    assert seen + [] == seen;
    return true;
  }

  /** The last `count` characters have no slash, and one stands before them. */
  ghost predicate CountsTail(seen: seq<int>, count: int) {
    && 0 <= count <= |seen| && SlashRune !in seen[|seen| - count..]
    && (count < |seen| ==> seen[|seen| - count - 1] == SlashRune)
  }

  lemma OneMoreRune(seen: seq<int>, count: int, p: int)
    requires CountsTail(seen, count) && SegmentsFit(seen)
    ensures var next := if p == SlashRune then 0 else count + 1;
            CountsTail(seen + [p], next) && (next <= 255 ==> SegmentsFit(seen + [p]))
  {
    var now, k := seen + [p], |seen|;
    var next := if p == SlashRune then 0 else count + 1;
    if p != SlashRune { assert now[k - count..] == seen[k - count..] + [p]; }
    if next <= 255 {
      forall i, j | 0 <= i <= j <= k + 1 && j - i > 255 ensures SlashRune in now[i..j] {
        if j <= k {
          assert now[i..j] == seen[i..j];
        } else if p == SlashRune {
          assert now[i..j][k - i] == p;
        } else {
          assert now[i..j][k - count - 1 - i] == SlashRune;
        }
      }
    }
  }

  lemma TooLong(seen: seq<int>, count: int, all: seq<int>)
    requires CountsTail(seen, count) && count > 255 && seen <= all
    ensures !SegmentsFit(all)
  {
    assert all[|seen| - count..|seen|] == seen[|seen| - count..];
  }

  // ---------- making directories ----------

  /** `os.MkdirAll`: the tree afterwards and whether it worked; `denied` are the
      directories the system refuses to make. */
  function Made(t: Tree, dir: string, denied: set<string>): (Tree, bool)
    decreases |dir|
  {
    if dir in t then (t, t[dir].DirEntry?)
    else if dir in ["", "/"] then (t, false)
    else
      assert |dir| == 1 && LastSlash(dir) == 0 ==> dir == "/";
      var above := if LastSlash(dir) < 0 then (t, true) else Made(t, PathDir(dir), denied);
      if !above.1 || dir in denied then (above.0, false) else (above.0[dir := DirEntry], true)
  }

  /** Making directories keeps every entry and adds only directories on the way. */
  lemma {:induction false} MadeOnlyAddsAbove(t: Tree, dir: string, denied: set<string>)
    ensures var made := Made(t, dir, denied).0;
            && (forall x :: x in t ==> x in made && made[x] == t[x])
            && (forall x :: x in made && x !in t ==> made[x].DirEntry? && |x| <= |dir|)
    ensures Made(t, dir, denied).1 ==> dir in Made(t, dir, denied).0 && Made(t, dir, denied).0[dir].DirEntry?
    decreases |dir|
  {
    if dir !in t && dir != "" && dir != "/" && LastSlash(dir) >= 0 {
      MadeOnlyAddsAbove(t, PathDir(dir), denied);
    }
  }

  /** A directory on the way to `dir`, or `dir` itself. */
  ghost predicate OnTheWay(a: string, dir: string) {
    a == dir || (a == "/" && "/" < dir) || (a != "" && a != "/" && a + "/" < dir)
  }

  lemma OnTheWayStep(a: string, dir: string)
    requires Spelled(dir) && dir[0] == '/'
    ensures OnTheWay(a, dir) <==> a == dir || OnTheWay(a, PathDir(dir))
    ensures PathDir(dir)[0] == '/' && (PathDir(dir) == "/" || Spelled(PathDir(dir))) && |PathDir(dir)| < |dir|
    ensures PathDir(dir) != "." && LastSlash(dir) >= 0
  {
    var i := LastSlash(dir);
    var parent := PathDir(dir);
    assert i >= 0;
    if i > 0 { assert parent == dir[..i] && parent[0] == dir[0] && dir[..i + 1] == parent + "/"; }
    if a != "" && a != "/" && a + "/" < dir {
      assert dir[|a|] == (a + "/")[|a|] == '/' && |a| <= i;
      assert dir[..|a|] == (a + "/")[..|a|] == a;
      if |a| < i { assert parent[..|a| + 1] == dir[..|a| + 1] == a + "/"; }
    }
    if OnTheWay(a, parent) && a != parent && a != "/" {
      assert dir[..|a| + 1] == parent[..|a| + 1] == a + "/";
    }
  }

  /** In a closed tree everything above an entry is a directory. */
  lemma {:induction false} AboveAreDirs(t: Tree, dir: string, a: string)
    requires Closed(t) && dir in t && dir[0] == '/' && OnTheWay(a, dir) && a != dir
    ensures a in t && t[a].DirEntry?
    decreases |dir|
  {
    OnTheWayStep(a, dir);
    if a != PathDir(dir) { AboveAreDirs(t, PathDir(dir), a); }
  }

  ghost predicate WayIsFree(t: Tree, dir: string, denied: set<string>) {
    forall a :: OnTheWay(a, dir) ==> if a in t then t[a].DirEntry? else a !in denied && a != "/"
  }

  /** Making directories works if and only if everything on the way that is there is a
      directory and nothing that is missing is denied. */
  lemma {:induction false} MadeExactly(t: Tree, dir: string, denied: set<string>)
    requires Closed(t) && dir != "" && dir[0] == '/' && (dir == "/" || Spelled(dir))
    ensures Made(t, dir, denied).1 <==> WayIsFree(t, dir, denied)
    decreases |dir|
  {
    if dir in t {
      forall a | OnTheWay(a, dir) && a != dir ensures a in t && t[a].DirEntry? { AboveAreDirs(t, dir, a); }
      assert OnTheWay(dir, dir);
    } else if dir == "/" {
      assert OnTheWay("/", dir);
    } else {
      OnTheWayStep(dir, dir);
      MadeExactly(t, PathDir(dir), denied);
      forall a ensures OnTheWay(a, dir) <==> a == dir || OnTheWay(a, PathDir(dir)) { OnTheWayStep(a, dir); }
    }
  }

  // ---------- what may happen ----------

  datatype Fault = NoFault | FailsAfter(bytes: nat)

  /** The choices the environment makes during one call. */
  datatype Choices = Choices(
    mkdirDenied: set<string>,
    tmpName: string,
    openFails: bool,
    attrAsked: bool, parseAttrFails: bool, attrEmpty: bool,
    data: string, fault: Fault,
    isCloser: bool, closeReaderFails: bool, closeTmpFails: bool,
    renameFails: bool, timesFail: bool, cleanupFails: bool)

  /** `put` copies to the end of the reader, `putN` copies `size` bytes. */
  datatype Mode = CopyAll | CopyN

  function Least(a: nat, b: nat): nat {
    if a < b then a else b
  }

  /** The bytes in the temporary file after the copy, and whether the copy worked. */
  function Copied(mode: Mode, size: int, c: Choices): (string, bool)
    requires mode.CopyN? ==> size >= 0
  {
    var want := if mode.CopyN? then c.data[..Least(size, |c.data|)] else c.data;
    var enough := mode.CopyN? ==> |want| == size;
    match c.fault
    case NoFault => (want, enough)
    case FailsAfter(k) =>
      if mode.CopyN? && enough && k >= |want| then (want, true)
      else (want[..Least(k, |want|)], false)
  }

  /** The checks after the copy. */
  predicate SizeAgrees(mode: Mode, size: int, written: nat) {
    size > 0 ==> (mode.CopyAll? ==> written == size) && (mode.CopyN? ==> written <= size)
  }

  function ObjectDir(path: string): string {
    path[..LastSlash(path) + 1]
  }

  function TempPath(path: string, name: string): string {
    var dir := PathDir(path);
    if dir == "." then name else if dir == "/" then "/" + name else dir + "/" + name
  }

  /** The tree once the missing directories are made. */
  function Prepared(t: Tree, path: string, c: Choices): (Tree, bool) {
    if ObjectDir(path) == "" then (t, true) else Made(t, Target(ObjectDir(path)), c.mkdirDenied)
  }

  predicate RenameWorks(t: Tree, to: string, c: Choices) {
    !c.renameFails && !(to in t && t[to].DirEntry?)
  }

  /** Every step from opening the temporary file to the rename works. */
  predicate CopyWorks(t: Tree, path: string, mode: Mode, size: int, c: Choices)
    requires mode.CopyN? ==> size >= 0
  {
    && !c.openFails && !(c.attrAsked && c.parseAttrFails)
    && Copied(mode, size, c).1 && !(c.isCloser && c.closeReaderFails) && !c.closeTmpFails
    && SizeAgrees(mode, size, |Copied(mode, size, c).0|)
    && RenameWorks(t, path, c)
  }

  /** Every step up to the rename works. */
  ghost predicate Commits(t: Tree, path: string, mode: Mode, size: int, c: Choices)
    requires mode.CopyN? ==> size >= 0
  {
    && Prepared(t, path, c).1 && BaseName(path) != "" && AllowedPath(path)
    && CopyWorks(Prepared(t, path, c).0, path, mode, size, c)
  }

  /** The tree after a call: the destination replaced when every step up to the
      rename works, and otherwise only directories made; the temporary file can
      stay only if its removal fails. */
  ghost predicate PutLeaves(before: Tree, after: Tree, path: string, mode: Mode, size: int, c: Choices)
    requires mode.CopyN? ==> size >= 0
  {
    var t := Prepared(before, path, c).0;
    if Commits(before, path, mode, size, c) then after == t[path := FileEntry(Copied(mode, size, c).0)]
    else (after == t || (c.cleanupFails && exists part :: after == t[TempPath(path, c.tmpName) := FileEntry(part)]))
  }

  // ---------- the call ----------

  class FsClient {
    const fs: FileSystem
    const path: string

    constructor (fs: FileSystem, path: string)
      ensures this.fs == fs && this.path == path
    {
      this.fs, this.path := fs, path;
    }

    /** The steps between opening the temporary file and the deferred removal. */
    method CopyAndCommit(tmp: string, mode: Mode, size: int, c: Choices, ghost t: Tree) returns (written: int, failed: bool)
      requires mode.CopyN? ==> size >= 0
      requires t == fs.entries && tmp !in t && tmp != path
      modifies fs
      ensures if CopyWorks(t, path, mode, size, c) then fs.entries == t[path := FileEntry(Copied(mode, size, c).0)]
              else (fs.entries == t || exists part :: fs.entries == t[tmp := FileEntry(part)])
      ensures failed <==> !CopyWorks(t, path, mode, size, c) || (c.attrAsked && !c.attrEmpty && c.timesFail)
      ensures !failed ==> written == |Copied(mode, size, c).0|
    {
      if c.openFails { return 0, true; }
      fs.entries := fs.entries[tmp := FileEntry("")];
      if c.attrAsked && c.parseAttrFails { return 0, true; }
      var (bytes, copyOk) := Copied(mode, size, c);
      fs.entries := fs.entries[tmp := FileEntry(bytes)];
      assert fs.entries == t[tmp := FileEntry(bytes)];
      if !copyOk { return 0, true; }
      written := |bytes|;
      if c.isCloser && c.closeReaderFails { return written, true; }
      if c.closeTmpFails { return written, true; }
      if size > 0 {
        if mode.CopyAll? && written < size { return written, true; }
        if written > size { return written, true; }
      }
      if !RenameWorks(fs.entries, path, c) { return written, true; }
      fs.entries := fs.entries[path := FileEntry(bytes)] - {tmp};
      assert fs.entries == t[path := FileEntry(bytes)];
      return written, c.attrAsked && !c.attrEmpty && c.timesFail;
    }

    /** `PutPart`: without a size everything is copied, with one at most that much. */
    method PutPart(size: int, c: Choices) returns (written: int, failed: bool)
      requires HasPrefix(path, "/")
      requires TempPath(path, c.tmpName) !in fs.entries && TempPath(path, c.tmpName) != path
      requires c.tmpName != "" && '/' !in c.tmpName
      modifies fs
      ensures PutLeaves(old(fs.entries), fs.entries, path, if size < 0 then CopyAll else CopyN, size, c)
      ensures !failed && BaseName(path) != "" && size >= 0 ==> written == size
    {
      if size < 0 {
        written, failed := Put(CopyAll, size, c);
      } else {
        written, failed := Put(CopyN, size, c);
      }
    }

    /** `put` and `putN`; the path is absolute, as the constructor of the client makes it. */
    method Put(mode: Mode, size: int, c: Choices) returns (written: int, failed: bool)
      requires mode.CopyN? ==> size >= 0
      requires HasPrefix(path, "/")
      requires TempPath(path, c.tmpName) !in fs.entries && TempPath(path, c.tmpName) != path
      requires c.tmpName != "" && '/' !in c.tmpName
      modifies fs
      ensures PutLeaves(old(fs.entries), fs.entries, path, mode, size, c)
      ensures BaseName(path) != "" ==>
        (failed <==> !Commits(old(fs.entries), path, mode, size, c) || (c.attrAsked && !c.attrEmpty && c.timesFail))
      ensures BaseName(path) == "" ==> written == 0 && (failed <==> !Prepared(old(fs.entries), path, c).1)
      ensures !failed && BaseName(path) != "" ==> written == |Copied(mode, size, c).0|
    {
      var objectDir, objectName := ObjectDir(path), BaseName(path);
      if objectDir != "" {
        var (made, ok) := Made(fs.entries, Target(objectDir), c.mkdirDenied);
        fs.entries := made;
        if !ok { return 0, true; }
        if objectName == "" { return 0, false; }
      }
      var allowed := CheckPathLength(path);
      if !allowed { return 0, true; }
      PreparedTwice(old(fs.entries), path, mode, size, c);
      TempStaysFresh(old(fs.entries), path, c);
      written, failed := CopyThenCleanUp(TempPath(path, c.tmpName), mode, size, c, fs.entries);
    }

    /** The copy with the deferred removal of the temporary file. */
    method CopyThenCleanUp(tmp: string, mode: Mode, size: int, c: Choices, ghost t: Tree) returns (written: int, failed: bool)
      requires mode.CopyN? ==> size >= 0
      requires t == fs.entries && tmp !in t && tmp != path
      modifies fs
      ensures if CopyWorks(t, path, mode, size, c) then fs.entries == t[path := FileEntry(Copied(mode, size, c).0)]
              else (fs.entries == t || (c.cleanupFails && exists part :: fs.entries == t[tmp := FileEntry(part)]))
      ensures failed <==> !CopyWorks(t, path, mode, size, c) || (c.attrAsked && !c.attrEmpty && c.timesFail)
      ensures !failed ==> written == |Copied(mode, size, c).0|
    {
      written, failed := CopyAndCommit(tmp, mode, size, c, t);
      if tmp in fs.entries && !c.cleanupFails {
        fs.entries := fs.entries - {tmp};
        assert fs.entries == t;
      }
    }
  }

  lemma PreparedTwice(t: Tree, path: string, mode: Mode, size: int, c: Choices)
    requires mode.CopyN? ==> size >= 0
    requires Prepared(t, path, c).1
    ensures var made := Prepared(t, path, c).0;
            Prepared(made, path, c) == (made, true) && (Commits(made, path, mode, size, c) <==> Commits(t, path, mode, size, c))
  {
    if ObjectDir(path) != "" { MadeOnlyAddsAbove(t, Target(ObjectDir(path)), c.mkdirDenied); }
  }

  /** Preparing keeps every entry, adds only directories, and does not touch the path itself. */
  lemma PreparedOnlyAdds(t: Tree, path: string, c: Choices)
    requires BaseName(path) != ""
    ensures var made := Prepared(t, path, c).0;
            && (forall x :: x in t ==> x in made && made[x] == t[x])
            && (forall x :: x in made && x !in t ==> made[x].DirEntry?)
            && (path in made ==> path in t)
  {
    var dir := Target(ObjectDir(path));
    if ObjectDir(path) != "" {
      MadeOnlyAddsAbove(t, dir, c.mkdirDenied);
      assert |dir| < |path|;
    }
  }

  /** The directory of the destination is made, exactly when the way to it is free. */
  lemma ParentIsMade(t: Tree, path: string, c: Choices)
    requires Closed(t) && Spelled(path) && path[0] == '/'
    ensures Prepared(t, path, c).1 <==> WayIsFree(t, PathDir(path), c.mkdirDenied)
    ensures Prepared(t, path, c).1 ==> PathDir(path) in Prepared(t, path, c).0 && Prepared(t, path, c).0[PathDir(path)].DirEntry?
  {
    OnTheWayStep(path, path);
    DirOfObject(path);
    MadeExactly(t, PathDir(path), c.mkdirDenied);
    MadeOnlyAddsAbove(t, PathDir(path), c.mkdirDenied);
  }

  lemma DirOfObject(path: string)
    requires Spelled(path) && path[0] == '/'
    ensures ObjectDir(path) != "" && Target(ObjectDir(path)) == PathDir(path)
  {
    var i := LastSlash(path);
    assert i >= 0;
    if i > 0 { assert path[..i + 1] == path[..i] + "/" && HasSuffix(path[..i + 1], "/"); } else { assert path[..1] == "/"; }
  }

  lemma TempStaysFresh(t: Tree, path: string, c: Choices)
    requires HasPrefix(path, "/") && TempPath(path, c.tmpName) !in t && c.tmpName != ""
    ensures TempPath(path, c.tmpName) !in Prepared(t, path, c).0
  {
    if ObjectDir(path) != "" {
      var dir := Target(ObjectDir(path));
      MadeOnlyAddsAbove(t, dir, c.mkdirDenied);
      var i := LastSlash(path);
      assert path[0] == '/' && i >= 0;
      if i > 0 { assert path[..i + 1] == path[..i] + "/" && path[..i][0] == '/'; }
      assert |dir| < |TempPath(path, c.tmpName)|;
    }
  }

  // ---------- what a caller may rely on ----------

  /** Whichever step fails: the destination is as it was unless everything up to the
      rename worked, and then it holds exactly the copied bytes; no other file
      changes, nothing is lost, and, when the clean-up works, nothing but
      directories and the destination is new. */
  lemma PutIsAtomic(before: Tree, after: Tree, path: string, mode: Mode, size: int, c: Choices)
    requires mode.CopyN? ==> size >= 0
    requires HasPrefix(path, "/") && BaseName(path) != "" && c.tmpName != ""
    requires TempPath(path, c.tmpName) !in before && TempPath(path, c.tmpName) != path
    requires PutLeaves(before, after, path, mode, size, c)
    ensures Commits(before, path, mode, size, c) ==> path in after && after[path] == FileEntry(Copied(mode, size, c).0)
    ensures !Commits(before, path, mode, size, c) ==> (path in after <==> path in before) && (path in before ==> after[path] == before[path])
    ensures forall x :: x in before && x != path ==> x in after && after[x] == before[x]
    ensures !c.cleanupFails ==> forall x :: x in after && x !in before && x != path ==> after[x].DirEntry?
    ensures !c.cleanupFails ==> TempPath(path, c.tmpName) !in after
  {
    TempStaysFresh(before, path, c);
    PreparedOnlyAdds(before, path, c);
  }

  /** When a call commits, exactly, by what its environment chose: everything opens,
      the data is read without a fault before its end, both ends are closed, the size
      is right, and the destination can be replaced. */
  lemma CommitsExactly(t: Tree, path: string, mode: Mode, size: int, c: Choices)
    requires mode.CopyN? ==> size >= 0
    ensures Commits(t, path, mode, size, c) <==>
      && Prepared(t, path, c).1 && BaseName(path) != "" && AllowedPath(path)
      && !c.openFails && (c.attrAsked ==> !c.parseAttrFails)
      && (mode.CopyAll? ==> c.fault.NoFault? && (size > 0 ==> |c.data| == size))
      && (mode.CopyN? ==> |c.data| >= size && (c.fault.NoFault? || c.fault.bytes >= size))
      && (c.isCloser ==> !c.closeReaderFails) && !c.closeTmpFails
      && !c.renameFails && (path in Prepared(t, path, c).0 ==> Prepared(t, path, c).0[path].FileEntry?)
    ensures Commits(t, path, mode, size, c) ==> Copied(mode, size, c).0 == if mode.CopyAll? then c.data else c.data[..size]
  {
  }

  /** The temporary file lies in the directory of the destination. */
  lemma TempIsBeside(path: string, name: string)
    requires name != "" && '/' !in name
    ensures PathDir(TempPath(path, name)) == PathDir(path) && BaseName(TempPath(path, name)) == name
  {
    var temp, dir := TempPath(path, name), PathDir(path);
    var i := |temp| - |name| - 1;
    assert temp[i + 1..] == name;
    assert forall j :: i < j < |temp| ==> temp[j] == name[j - i - 1];
    if dir != "." {
      SlashAt(temp, i);
      if dir != "/" { assert temp[..i] == dir; }
    } else {
      assert LastSlash(temp) < 0;
    }
  }

  /** A successful call wrote the announced size: always for `putN`, and for `put` when a size was announced. */
  lemma SuccessHasSize(before: Tree, path: string, mode: Mode, size: int, c: Choices)
    requires mode.CopyN? ==> size >= 0
    requires Commits(before, path, mode, size, c)
    ensures mode.CopyN? || size > 0 ==> |Copied(mode, size, c).0| == size
    ensures Copied(mode, size, c).0 <= c.data
  {
  }
}
