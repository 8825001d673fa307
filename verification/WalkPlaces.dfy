// Where directory entries stand among the events of a walk, and that every
// entry is sent once.
module WalkPlaces {
  import opened Text
  import opened DirOrder
  import opened DirWalk
  import WalkEvents

  /** `path` is `top` or lies below it. */
  predicate Within(top: string, path: string) {
    path == top || top + "/" <= path
  }

  /** A directory entry stands before (or after) everything at or below its path. */
  ghost predicate DirsPlaced(events: seq<Event>, opt: DirOpt) {
    forall i, j :: 0 <= i < |events| && 0 <= j < |events| && i != j
      && WalkEvents.IsDirEntry(events[i]) && Within(events[i].path, events[j].path)
      ==> (opt.DirFirst? && i < j) || (opt.DirLast? && j < i)
  }

  /** No two entries, and no two failures, have the same path. */
  ghost predicate EachOnce(events: seq<Event>) {
    forall i, j :: 0 <= i < j < |events| && events[i].Entry? == events[j].Entry? ==> events[i].path != events[j].path
  }

  ghost predicate AllWithin(top: string, events: seq<Event>) {
    forall i :: 0 <= i < |events| ==> Within(top, events[i].path)
  }

  /** No path of one part lies at or below a path of the other. */
  ghost predicate Apart(a: seq<Event>, b: seq<Event>) {
    forall i, j :: 0 <= i < |a| && 0 <= j < |b| ==> !Within(a[i].path, b[j].path) && !Within(b[j].path, a[i].path)
  }

  ghost predicate InPlace(events: seq<Event>, opt: DirOpt) {
    DirsPlaced(events, opt) && EachOnce(events)
  }

  lemma InPlaceConcat(a: seq<Event>, b: seq<Event>, opt: DirOpt)
    requires InPlace(a, opt) && InPlace(b, opt) && Apart(a, b)
    ensures InPlace(a + b, opt)
  {
    var c := a + b;
    forall i, j | 0 <= i < |c| && 0 <= j < |c| && i != j && WalkEvents.IsDirEntry(c[i]) && Within(c[i].path, c[j].path)
      ensures (opt.DirFirst? && i < j) || (opt.DirLast? && j < i)
    {
      assert i < |a| <==> j < |a|;
      if i >= |a| { assert c[i] == b[i - |a|] && c[j] == b[j - |a|]; }
    }
  }

  lemma WithinTransitive(a: string, b: string, c: string)
    requires Within(a, b) && Within(b, c)
    ensures Within(a, c)
  {
  }

  lemma SiblingsApart(cur: string, x: Node, y: Node, p: string, q: string)
    requires ValidName(x.name) && ValidName(y.name) && x.name != y.name
    requires Within(Join(cur, x.name), p) && Within(Join(cur, y.name), q)
    ensures !Within(p, q)
  {
    var a, b := Join(cur, x.name), Join(cur, y.name);
    var n := |cur| + 1;
    assert a[n..] == x.name && b[n..] == y.name;
    if Within(p, q) {
      WithinTransitive(a, p, q);
      NotWithinBoth(n, a, b, q);
      assert false;
    }
  }

  lemma NotWithinBoth(n: nat, a: string, b: string, q: string)
    requires n <= |a| && n <= |b| && '/' !in a[n..] && '/' !in b[n..] && a != b && a[..n] == b[..n]
    requires Within(b, q)
    ensures !Within(a, q)
  {
    assert b <= q;
    if |a| < |b| {
      assert b[|a|] == b[n..][|a| - n] != '/' && q[|a|] == b[|a|];
    } else if |b| < |a| {
      assert a[|b|] == a[n..][|b| - n] != '/';
      assert q == b || q[|b|] == '/';
    }
  }

  /** Events below a directory: its own failure, or events of its entries. */
  ghost predicate Inside(cur: string, events: seq<Event>) {
    forall i :: 0 <= i < |events| ==> Within(cur, events[i].path) && (events[i].Entry? ==> events[i].path != cur)
  }

  ghost predicate FromEntries(cur: string, files: seq<Node>, events: seq<Event>) {
    forall i :: 0 <= i < |events| ==>
      exists k :: 0 <= k < |files| && Within(Join(cur, files[k].name), events[i].path)
  }

  lemma EntriesAreInside(cur: string, files: seq<Node>, events: seq<Event>)
    requires ValidListing(files) && FromEntries(cur, files, events)
    ensures Inside(cur, events)
  {
    forall i | 0 <= i < |events| ensures Within(cur, events[i].path) && events[i].path != cur {
      var k :| 0 <= k < |files| && Within(Join(cur, files[k].name), events[i].path);
      assert cur + "/" <= Join(cur, files[k].name);
    }
  }

  lemma {:induction false} PlacesInDir(cur: string, d: Node, sort: seq<Node> -> seq<Node>, opt: DirOpt)
    requires d.Dir? && GoodSort(sort) && WellFormed(d)
    ensures InPlace(WalkDir(cur, d, sort, opt).0, opt) && Inside(cur, WalkDir(cur, d, sort, opt).0)
    decreases d, 1, 0
  {
    if d.open.Opened? {
      var files := sort(d.children);
      SameEntries(files, d.children);
      ValidUnderSort(d.children, files);
      PlacesInList(cur, d, files, sort, opt);
      EntriesAreInside(cur, files, WalkDir(cur, d, sort, opt).0);
    }
  }

  lemma {:induction false} PlacesInList(cur: string, d: Node, files: seq<Node>, sort: seq<Node> -> seq<Node>, opt: DirOpt)
    requires d.Dir? && GoodSort(sort) && WellFormed(d) && ValidListing(files)
    requires forall x :: x in files ==> x in d.children
    ensures InPlace(WalkList(cur, d, files, sort, opt).0, opt)
    ensures FromEntries(cur, files, WalkList(cur, d, files, sort, opt).0)
    decreases d, 0, |files|
  {
    if files != [] {
      var x, rest := files[0], files[1..];
      assert x in d.children;
      var name := Join(cur, x.name);
      PlacesInNode(name, x, sort, opt);
      PlacesInList(cur, d, rest, sort, opt);
      var mine, others := WalkNode(name, x, sort, opt).0, WalkList(cur, d, rest, sort, opt).0;
      FirstApart(cur, files, mine, others);
      InPlaceConcat(mine, others, opt);
      FromFirstAndRest(cur, files, mine, others);
    }
  }

  lemma FirstApart(cur: string, files: seq<Node>, mine: seq<Event>, others: seq<Event>)
    requires files != [] && ValidListing(files)
    requires AllWithin(Join(cur, files[0].name), mine) && FromEntries(cur, files[1..], others)
    ensures Apart(mine, others)
  {
    forall i, j | 0 <= i < |mine| && 0 <= j < |others|
      ensures !Within(mine[i].path, others[j].path) && !Within(others[j].path, mine[i].path)
    {
      var k :| 0 <= k < |files[1..]| && Within(Join(cur, files[1..][k].name), others[j].path);
      assert files[1..][k] == files[k + 1];
      SiblingsApart(cur, files[0], files[k + 1], mine[i].path, others[j].path);
      SiblingsApart(cur, files[k + 1], files[0], others[j].path, mine[i].path);
    }
  }

  lemma FromFirstAndRest(cur: string, files: seq<Node>, mine: seq<Event>, others: seq<Event>)
    requires files != []
    requires AllWithin(Join(cur, files[0].name), mine) && FromEntries(cur, files[1..], others)
    ensures FromEntries(cur, files, mine) && FromEntries(cur, files, mine + others)
  {
    forall j | 0 <= j < |others| ensures exists k :: 0 <= k < |files| && Within(Join(cur, files[k].name), others[j].path) {
      var k :| 0 <= k < |files[1..]| && Within(Join(cur, files[1..][k].name), others[j].path);
      assert files[1..][k] == files[k + 1];
    }
  }

  lemma {:induction false} PlacesInNode(name: string, x: Node, sort: seq<Node> -> seq<Node>, opt: DirOpt)
    requires GoodSort(sort) && WellFormed(x)
    ensures InPlace(WalkNode(name, x, sort, opt).0, opt) && AllWithin(name, WalkNode(name, x, sort, opt).0)
    decreases x, 2, 0
  {
    if x.Dir? {
      PlacesInDir(name, x, sort, opt);
      Around(name, WalkDir(name, x, sort, opt).0, opt);
    }
  }

  /** The entry of a directory goes before or after what is inside. */
  lemma Around(name: string, inner: seq<Event>, opt: DirOpt)
    requires InPlace(inner, opt) && Inside(name, inner)
    ensures opt.DirFirst? ==> InPlace([Entry(name, true)] + inner, opt)
    ensures opt.DirLast? ==> InPlace(inner + [Entry(name, true)], opt)
  {
    var self := [Entry(name, true)];
    var first, last := self + inner, inner + self;
    assert forall i :: 0 < i < |first| ==> first[i] == inner[i - 1];
    assert forall i :: 0 <= i < |inner| ==> last[i] == inner[i];
  }

  /** In what `listDirOpt` sends, every entry and every failure appears once, and every directory,
      the root included, before (`DirFirst`) or after (`DirLast`) everything at
      or below its path; read errors and stops included. */
  lemma PlacesInWalk(cur: string, d: Node, sort: seq<Node> -> seq<Node>, opt: DirOpt)
    requires d.Dir? && GoodSort(sort) && WellFormed(d)
    ensures DirsPlaced(WalkEvents.Framed(cur, d, sort, opt), opt) && EachOnce(WalkEvents.Framed(cur, d, sort, opt))
  {
    PlacesInDir(cur, d, sort, opt);
    var inner := WalkDir(cur, d, sort, opt).0;
    Around(cur, inner, opt);
    assert [] + inner + [] == inner && [Entry(cur, true)] + inner + [] == [Entry(cur, true)] + inner;
    assert [] + inner + [Entry(cur, true)] == inner + [Entry(cur, true)];
  }
}
