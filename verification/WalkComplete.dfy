// What a walk sends, read off the tree: every entry that can be reached, and every
// directory that cannot be opened with its reason.
module WalkComplete {
  import opened Text
  import opened DirOrder
  import opened DirWalk
  import opened WalkEvents
  import opened WalkPlaces

  /** The node `x` lies at path `p` below the directory `d` at `cur`, and `d` and all
      directories between are opened. */
  ghost predicate Reaches(cur: string, d: Node, p: string, x: Node)
    decreases d
  {
    d.Dir? && d.open.Opened?
    && exists c :: c in d.children && ((x == c && p == cur + "/" + c.name) || Reaches(cur + "/" + c.name, c, p, x))
  }

  /** The event belongs to the tree: a file that is reached, a directory that is
      reached when directories are shown, or a directory that is not opened, with
      its reason; `cur` itself can only fail. */
  ghost predicate Belongs(cur: string, d: Node, opt: DirOpt, e: Event)
    requires d.Dir?
  {
    match e
    case Entry(p, isDir) => (isDir ==> !opt.DirNone?) && exists x :: Reaches(cur, d, p, x) && x.Dir? == isDir
    case Failed(p, why) => !why.Opened? && ((p == cur && d.open == why) || exists x :: Reaches(cur, d, p, x) && x.Dir? && x.open == why)
  }

  /** The same for one entry of a directory. */
  ghost predicate BelongsToEntry(name: string, x: Node, opt: DirOpt, e: Event) {
    if x.File? then e == Entry(name, false)
    else (e == Entry(name, true) && !opt.DirNone?) || Belongs(name, x, opt, e)
  }

  lemma BelongsStep(cur: string, d: Node, opt: DirOpt, e: Event)
    requires d.Dir?
    ensures d.open.Opened? ==>
      (Belongs(cur, d, opt, e) <==> exists c :: c in d.children && BelongsToEntry(cur + "/" + c.name, c, opt, e))
    ensures !d.open.Opened? ==> (Belongs(cur, d, opt, e) <==> e == Failed(cur, d.open))
  {
    if d.open.Opened? {
      if Belongs(cur, d, opt, e) {
        var x :| Reaches(cur, d, e.path, x) && (e.Entry? ==> x.Dir? == e.isDir) && (e.Failed? ==> x.Dir? && x.open == e.why);
        var c :| c in d.children && ((x == c && e.path == cur + "/" + c.name) || Reaches(cur + "/" + c.name, c, e.path, x));
        assert BelongsToEntry(cur + "/" + c.name, c, opt, e);
      }
      if c :| c in d.children && BelongsToEntry(cur + "/" + c.name, c, opt, e) {
        EntryBelongs(cur, d, opt, e, c);
      }
    }
  }

  lemma EntryBelongs(cur: string, d: Node, opt: DirOpt, e: Event, c: Node)
    requires d.Dir? && d.open.Opened? && c in d.children && BelongsToEntry(cur + "/" + c.name, c, opt, e)
    ensures Belongs(cur, d, opt, e)
  {
    var name := cur + "/" + c.name;
    if c.File? || e == Entry(name, true) || e == Failed(name, c.open) {
      assert Reaches(cur, d, e.path, c);
    } else {
      var x :| Reaches(name, c, e.path, x) && (e.Entry? ==> x.Dir? == e.isDir) && (e.Failed? ==> x.Dir? && x.open == e.why);
      assert Reaches(cur, d, e.path, x);
    }
  }

  // ---------- up to the stop ----------

  /** The place of the first entry that stops the walk of a sorted listing. */
  ghost function StopPlace(files: seq<Node>): (k: nat)
    ensures k <= |files|
  {
    if files == [] || Unreadable(files[0]) then 0 else 1 + StopPlace(files[1..])
  }

  /** What is sent of a directory: everything that belongs to the entries before the
      one that stops the walk, and of that one, what is sent of it. */
  ghost predicate SentOf(cur: string, d: Node, sort: seq<Node> -> seq<Node>, opt: DirOpt, e: Event)
    requires d.Dir? && GoodSort(sort)
    decreases d, 1
  {
    if !d.open.Opened? then e == Failed(cur, d.open)
    else
      var files := sort(d.children);
      var k := StopPlace(files);
      SameEntries(files, d.children);
      || (exists i :: 0 <= i < k && BelongsToEntry(cur + "/" + files[i].name, files[i], opt, e))
      || (k < |files| && assert files[k] in d.children; SentOfEntry(cur + "/" + files[k].name, files[k], sort, opt, e))
  }

  ghost predicate SentOfEntry(name: string, x: Node, sort: seq<Node> -> seq<Node>, opt: DirOpt, e: Event)
    requires GoodSort(sort)
    decreases x, 2
  {
    x.Dir? && ((e == Entry(name, true) && opt.DirFirst?) || SentOf(name, x, sort, opt, e))
  }

  ghost predicate SentOfList(cur: string, files: seq<Node>, sort: seq<Node> -> seq<Node>, opt: DirOpt, e: Event)
    requires GoodSort(sort)
  {
    var k := StopPlace(files);
    || (exists i :: 0 <= i < k && BelongsToEntry(cur + "/" + files[i].name, files[i], opt, e))
    || (k < |files| && SentOfEntry(cur + "/" + files[k].name, files[k], sort, opt, e))
  }

  lemma SentOfListStep(cur: string, files: seq<Node>, sort: seq<Node> -> seq<Node>, opt: DirOpt, e: Event)
    requires GoodSort(sort) && files != []
    ensures var name := cur + "/" + files[0].name;
            SentOfList(cur, files, sort, opt, e)
            <==> if Unreadable(files[0]) then SentOfEntry(name, files[0], sort, opt, e)
                 else BelongsToEntry(name, files[0], opt, e) || SentOfList(cur, files[1..], sort, opt, e)
  {
    if !Unreadable(files[0]) {
      var rest, k := files[1..], StopPlace(files);
      assert k == 1 + StopPlace(rest);
      assert k < |files| ==> rest[k - 1] == files[k];
      if i :| 0 <= i < k && BelongsToEntry(cur + "/" + files[i].name, files[i], opt, e) {
        assert i > 0 ==> rest[i - 1] == files[i];
      }
      if i :| 0 <= i < k - 1 && BelongsToEntry(cur + "/" + rest[i].name, rest[i], opt, e) {
        assert files[i + 1] == rest[i];
      }
    }
  }

  // ---------- the walk sends exactly that ----------

  lemma {:induction false} DirSends(cur: string, d: Node, sort: seq<Node> -> seq<Node>, opt: DirOpt, e: Event)
    requires d.Dir? && GoodSort(sort)
    ensures e in WalkDir(cur, d, sort, opt).0 <==> SentOf(cur, d, sort, opt, e)
    ensures !Unreadable(d) ==> (SentOf(cur, d, sort, opt, e) <==> Belongs(cur, d, opt, e))
    decreases d, 1, 0
  {
    BelongsStep(cur, d, opt, e);
    if d.open.Opened? {
      var files := sort(d.children);
      SameEntries(files, d.children);
      ListSends(cur, d, files, sort, opt, e);
      assert SentOf(cur, d, sort, opt, e) <==> SentOfList(cur, files, sort, opt, e);
      if !Unreadable(d) {
        forall x | x in files ensures !Unreadable(x) { assert x in d.children && !UnreadableBelow(d); }
        NoStopPlace(files);
        SameFromListing(cur, d.children, files, opt, e);
      }
    }
  }

  lemma {:induction false} NoStopPlace(files: seq<Node>)
    requires forall x :: x in files ==> !Unreadable(x)
    ensures StopPlace(files) == |files|
  {
    if files != [] { NoStopPlace(files[1..]); }
  }

  lemma SameFromListing(cur: string, children: seq<Node>, files: seq<Node>, opt: DirOpt, e: Event)
    requires forall x :: x in files <==> x in children
    ensures (exists c :: c in children && BelongsToEntry(cur + "/" + c.name, c, opt, e))
       <==> exists i :: 0 <= i < |files| && BelongsToEntry(cur + "/" + files[i].name, files[i], opt, e)
  {
    if c :| c in children && BelongsToEntry(cur + "/" + c.name, c, opt, e) {
      assert c in files;
    }
    if i :| 0 <= i < |files| && BelongsToEntry(cur + "/" + files[i].name, files[i], opt, e) {
      assert files[i] in children;
    }
  }

  lemma {:induction false} ListSends(cur: string, d: Node, files: seq<Node>, sort: seq<Node> -> seq<Node>, opt: DirOpt, e: Event)
    requires d.Dir? && GoodSort(sort)
    requires forall x :: x in files ==> x in d.children
    ensures e in WalkList(cur, d, files, sort, opt).0 <==> SentOfList(cur, files, sort, opt, e)
    decreases d, 0, |files|
  {
    if files != [] {
      assert files[0] in d.children;
      NodeSends(cur + "/" + files[0].name, files[0], sort, opt, e);
      ListSends(cur, d, files[1..], sort, opt, e);
      SentOfListStep(cur, files, sort, opt, e);
    }
  }

  lemma {:induction false} NodeSends(name: string, x: Node, sort: seq<Node> -> seq<Node>, opt: DirOpt, e: Event)
    requires GoodSort(sort)
    ensures WalkNode(name, x, sort, opt).1 <==> Unreadable(x)
    ensures e in WalkNode(name, x, sort, opt).0
       <==> if Unreadable(x) then SentOfEntry(name, x, sort, opt, e) else BelongsToEntry(name, x, opt, e)
    decreases x, 2, 0
  {
    if x.Dir? {
      StopsExactly(name, x, sort, opt);
      DirSends(name, x, sort, opt, e);
    }
  }

  /** What `listDirOpt` sends, exactly: the entry of the root when directories are
      shown; without an unreadable directory every event that belongs to the tree, and
      otherwise what belongs before the stop.  Each is sent once. */
  lemma SendsExactly(cur: string, d: Node, sort: seq<Node> -> seq<Node>, opt: DirOpt, e: Event)
    requires d.Dir? && GoodSort(sort) && WellFormed(d)
    ensures var sent := multiset(Framed(cur, d, sort, opt))[e];
            sent == if (e == Entry(cur, true) && !opt.DirNone?) || SentOf(cur, d, sort, opt, e) then 1 else 0
    ensures !Unreadable(d) ==> (SentOf(cur, d, sort, opt, e) <==> Belongs(cur, d, opt, e))
  {
    DirSends(cur, d, sort, opt, e);
    PlacesInWalk(cur, d, sort, opt);
    OnceIsOne(Framed(cur, d, sort, opt), e);
    var self := [Entry(cur, true)];
    var events := WalkDir(cur, d, sort, opt).0;
    assert e in Framed(cur, d, sort, opt) <==> (e == Entry(cur, true) && !opt.DirNone?) || e in events;
  }

  lemma OnceIsOne(events: seq<Event>, e: Event)
    requires EachOnce(events)
    ensures multiset(events)[e] == if e in events then 1 else 0
  {
    if e in events {
      var i :| 0 <= i < |events| && events[i] == e;
      assert events == events[..i] + [e] + events[i + 1..];
      assert e !in events[..i] && e !in events[i + 1..];
    }
  }

  /** A directory that is denied is reported, and its neighbours are still listed. */
  lemma DeniedIsReported(cur: string, name: string, file: string, sort: seq<Node> -> seq<Node>, opt: DirOpt)
    requires GoodSort(sort)
    ensures var events := WalkDir(cur, Dir("", Opened, [Dir(name, Permission, []), File(file)]), sort, opt).0;
            Failed(cur + "/" + name, Permission) in events && Entry(cur + "/" + file, false) in events
  {
    var x, y := Dir(name, Permission, []), File(file);
    var d := Dir("", Opened, [x, y]);
    assert x in d.children && y in d.children && !Unreadable(x) && !Unreadable(y);
    assert forall c :: c in d.children ==> c == x || c == y;
    SendsOfEntry(cur, d, sort, opt, x, Failed(cur + "/" + name, Permission));
    SendsOfEntry(cur, d, sort, opt, y, Entry(cur + "/" + file, false));
  }

  lemma SendsOfEntry(cur: string, d: Node, sort: seq<Node> -> seq<Node>, opt: DirOpt, c: Node, e: Event)
    requires d.Dir? && d.open.Opened? && GoodSort(sort) && !Unreadable(d)
    requires c in d.children && BelongsToEntry(cur + "/" + c.name, c, opt, e)
    ensures e in WalkDir(cur, d, sort, opt).0
  {
    EntryBelongs(cur, d, opt, e, c);
    DirSends(cur, d, sort, opt, e);
  }

  /** An incomplete-uploads listing shows no directory, not even the root; any other shows them as asked. */
  lemma IncompleteShowsFiles(cur: string, d: Node, sort: seq<Node> -> seq<Node>, opt: DirOpt, e: Event)
    requires d.Dir? && GoodSort(sort) && WellFormed(d)
    ensures e in Framed(cur, d, sort, Shown(opt, true)) ==> !IsDirEntry(e)
    ensures Shown(opt, false) == opt
  {
    DirSends(cur, d, sort, Shown(opt, true), e);
    if e in Framed(cur, d, sort, Shown(opt, true)) && IsDirEntry(e) {
      NoDirsSent(cur, d, sort, e);
    }
  }

  lemma {:induction false} NoDirsSent(cur: string, d: Node, sort: seq<Node> -> seq<Node>, e: Event)
    requires d.Dir? && GoodSort(sort) && IsDirEntry(e)
    ensures !SentOf(cur, d, sort, DirNone, e)
    decreases d
  {
    if d.open.Opened? {
      var files := sort(d.children);
      var k := StopPlace(files);
      SameEntries(files, d.children);
      if k < |files| {
        assert files[k] in d.children;
        if files[k].Dir? { NoDirsSent(cur + "/" + files[k].name, files[k], sort, e); }
      }
    }
  }
}
