// The other direction: a trap in a tree lets `sort.Sort` return an order that
// breaks the walk, so the condition on the tree is exact.
module WalkExactness {
  import opened Text
  import opened DirOrder
  import opened DirWalk
  import opened WalkEvents
  import opened Sequences

  // ---------- insertion sort, which Go uses on short slices ----------

  /** Moves `x` left while it is less than its neighbour. */
  function Insert(lt: (Node, Node) -> bool, s: seq<Node>, x: Node): (r: seq<Node>)
    ensures multiset(r) == multiset(s) + multiset{x}
    ensures r[|r| - 1] == x || (s != [] && r[|r| - 1] == s[|s| - 1])
  {
    if s != [] && lt(x, s[|s| - 1]) then
      var last := |s| - 1;
      assert s == s[..last] + [s[last]];
      Insert(lt, s[..last], x) + [s[last]]
    else s + [x]
  }

  function InsertionSort(lt: (Node, Node) -> bool, s: seq<Node>): (r: seq<Node>)
    ensures multiset(r) == multiset(s)
  {
    if s == [] then []
    else
      var last := |s| - 1;
      assert s == s[..last] + [s[last]];
      Insert(lt, InsertionSort(lt, s[..last]), s[last])
  }

  ghost predicate NoNeighbourInversion(lt: (Node, Node) -> bool, s: seq<Node>) {
    forall i, j :: 0 <= i < j < |s| && j == i + 1 ==> !lt(s[j], s[i])
  }

  ghost predicate Asymmetric(lt: (Node, Node) -> bool) {
    forall x, y :: !(lt(x, y) && lt(y, x))
  }

  lemma {:induction false} InsertKeepsOrder(lt: (Node, Node) -> bool, s: seq<Node>, x: Node)
    requires Asymmetric(lt) && NoNeighbourInversion(lt, s)
    ensures NoNeighbourInversion(lt, Insert(lt, s, x))
  {
    if s != [] && lt(x, s[|s| - 1]) {
      var last := |s| - 1;
      var init := s[..last];
      InsertKeepsOrder(lt, init, x);
      var r := Insert(lt, init, x);
      assert !lt(s[last], r[|r| - 1]);
    }
  }

  lemma {:induction false} InsertionSortSorts(lt: (Node, Node) -> bool, s: seq<Node>)
    requires Asymmetric(lt)
    ensures NoNeighbourInversion(lt, InsertionSort(lt, s))
  {
    if s != [] {
      var last := |s| - 1;
      InsertionSortSorts(lt, s[..last]);
      InsertKeepsOrder(lt, InsertionSort(lt, s[..last]), s[last]);
    }
  }

  lemma LessIsAsymmetric()
    ensures Asymmetric(Less)
  {
    forall x, y ensures !(Less(x, y) && Less(y, x)) {
      StrLessTotal(x.name, y.name);
      StrLessTotal(x.name, y.name + "/");
      StrLessTotal(x.name + "/", y.name);
      PrefixIsLess(x.name, x.name + "/");
      PrefixIsLess(y.name, y.name + "/");
      if Less(x, y) && Less(y, x) && x.Dir? && y.Dir? {
        StrLessTransitive(x.name, x.name + "/", y.name);
        StrLessTransitive(y.name, y.name + "/", x.name);
      }
    }
  }

  /** The sort is not assumed in vain: insertion sort meets what the walk assumes of it on every slice. */
  lemma InsertionSortIsGood()
    ensures GoodSort(l => InsertionSort(Less, l))
  {
    LessIsAsymmetric();
    forall l: seq<Node> ensures SortedByLess(InsertionSort(Less, l)) {
      InsertionSortSorts(Less, l);
    }
  }

  // ---------- a bad order for a trapped directory ----------

  predicate KeyLess(x: Node, y: Node) {
    StrLess(Key(x), Key(y))
  }

  ghost predicate KeySorted(s: seq<Node>) {
    forall i, j :: 0 <= i < j < |s| ==> KeyLess(s[i], s[j])
  }

  lemma {:induction false} KeySortedUpTo(s: seq<Node>, i: nat, j: nat)
    requires ValidListing(s) && NoNeighbourInversion(KeyLess, s) && i < j < |s|
    ensures KeyLess(s[i], s[j])
    decreases j - i
  {
    KeysDiffer(s[j - 1], s[j]);
    StrLessTotal(Key(s[j - 1]), Key(s[j]));
    assert !KeyLess(s[j], s[j - 1]);
    if i < j - 1 {
      KeySortedUpTo(s, i, j - 1);
      StrLessTransitive(Key(s[i]), Key(s[j - 1]), Key(s[j]));
    }
  }

  lemma PathOrder(s: seq<Node>) returns (t: seq<Node>)
    requires ValidListing(s)
    ensures multiset(t) == multiset(s) && ValidListing(t) && KeySorted(t)
  {
    assert Asymmetric(KeyLess) by {
      forall x, y ensures !(KeyLess(x, y) && KeyLess(y, x)) { StrLessTotal(Key(x), Key(y)); }
    }
    t := InsertionSort(KeyLess, s);
    InsertionSortSorts(KeyLess, s);
    ValidUnderSort(s, t);
    forall i, j | 0 <= i < j < |t| ensures KeyLess(t[i], t[j]) { KeySortedUpTo(t, i, j); }
  }

  lemma PlaceInOrder(t: seq<Node>, i: nat, j: nat)
    requires ValidListing(t) && KeySorted(t) && i < |t| && j < |t|
    ensures StrLeq(Key(t[i]), Key(t[j])) <==> i <= j
  {
    if j < i { assert KeyLess(t[j], t[i]); StrLessTotal(Key(t[j]), Key(t[i])); }
  }

  lemma NoInversionAt(x: Node, y: Node)
    requires ValidName(x.name) && ValidName(y.name) && (KeyLess(x, y) || Clash(x, y))
    ensures !Less(y, x)
  {
    LessExactly(y, x);
    StrLessTotal(Key(x), Key(y));
  }

  /** A listing with a trap can be returned with `x` before `z`, against path order:
      the stretch from `x` to `d` is moved in front of the stretch from `e`. */
  lemma TrapOrder(s: seq<Node>, d: Node, e: Node, x: Node, z: Node) returns (bad: seq<Node>, i: nat, j: nat)
    requires ValidListing(s) && d in s && e in s && x in s && z in s && Encloses(d, e, x, z)
    ensures multiset(bad) == multiset(s) && SortedByLess(bad)
    ensures i < j < |bad| && bad[i] == x && bad[j] == z
  {
    var t := PathOrder(s);
    SameEntries(s, t);
    var di, ei, xi, zi;
    di := PlaceOf(t, d);
    ei := PlaceOf(t, e);
    xi := PlaceOf(t, x);
    zi := PlaceOf(t, z);
    StrLessTotal(Key(z), Key(x));
    EnclosedPlaces(t, di, ei, xi, zi);
    bad, i, j := MoveApart(t, di, ei, xi, zi);
  }

  lemma EnclosedPlaces(t: seq<Node>, d: nat, e: nat, x: nat, z: nat)
    requires ValidListing(t) && KeySorted(t) && d < |t| && e < |t| && x < |t| && z < |t| && x != z
    requires StrLeq(Key(t[e]), Key(t[z])) && StrLeq(Key(t[z]), Key(t[x])) && StrLeq(Key(t[x]), Key(t[d]))
    ensures e <= z < x <= d
  {
    PlaceInOrder(t, e, z);
    PlaceInOrder(t, z, x);
    PlaceInOrder(t, x, d);
  }

  lemma MoveApart(t: seq<Node>, d: nat, e: nat, x: nat, z: nat) returns (bad: seq<Node>, i: nat, j: nat)
    requires ValidListing(t) && KeySorted(t) && e <= z < x <= d < |t| && Clash(t[d], t[e])
    ensures multiset(bad) == multiset(t) && SortedByLess(bad)
    ensures i < j < |bad| && bad[i] == t[x] && bad[j] == t[z]
  {
    bad := Moved(t, e, x, d);
    MovedIsPermutation(t, e, x, d);
    MovedIsSorted(t, e, x, d);
    i, j := MovedPlaces(t, d, e, x, z);
  }

  lemma MovedPlaces(t: seq<Node>, d: nat, e: nat, x: nat, z: nat) returns (i: nat, j: nat)
    requires e <= z < x <= d < |t|
    ensures var bad := Moved(t, e, x, d); i < j < |bad| && bad[i] == t[x] && bad[j] == t[z]
  {
    i, j := e, e + (d + 1 - x) + (z - e);
    MovedAt(t, e, x, d, i);
    MovedAt(t, e, x, d, j);
  }

  lemma MovedIsSorted(t: seq<Node>, e: nat, x: nat, d: nat)
    requires ValidListing(t) && KeySorted(t) && e <= x <= d < |t| && Clash(t[d], t[e])
    ensures SortedByLess(Moved(t, e, x, d))
  {
    var bad := Moved(t, e, x, d);
    forall p, q | 0 <= p < q < |bad| && q == p + 1 ensures !Less(bad[q], bad[p]) {
      MovedNeighbours(t, e, x, d, p, q);
      MovedAt(t, e, x, d, p);
      MovedAt(t, e, x, d, q);
      NoInversionAt(bad[p], bad[q]);
    }
  }

  /** `t` with the stretch from `x` to `d` in front of the stretch from `e` to `x`. */
  function Moved(t: seq<Node>, e: nat, x: nat, d: nat): seq<Node>
    requires e <= x <= d < |t|
  {
    t[..e] + t[x..d + 1] + t[e..x] + t[d + 1..]
  }

  lemma MovedIsPermutation(t: seq<Node>, e: nat, x: nat, d: nat)
    requires e <= x <= d < |t|
    ensures multiset(Moved(t, e, x, d)) == multiset(t)
  {
    assert t == t[..e] + t[e..x] + t[x..d + 1] + t[d + 1..];
  }

  lemma MovedAt(t: seq<Node>, e: nat, x: nat, d: nat, k: nat)
    requires e <= x <= d < |t| && k < |t|
    ensures Moved(t, e, x, d)[k] == t[OldPlace(|t|, e, x, d, k)]
  {
  }

  /** After the move, neighbours are still in path order, except where `d` meets `e`. */
  lemma MovedNeighbours(t: seq<Node>, e: nat, x: nat, d: nat, p: nat, q: nat)
    requires KeySorted(t) && e <= x <= d < |t| && q == p + 1 < |t|
    ensures var bad := Moved(t, e, x, d);
            (bad[p] == t[d] && bad[q] == t[e]) || KeyLess(bad[p], bad[q])
  {
    MovedAt(t, e, x, d, p);
    MovedAt(t, e, x, d, q);
    OldPlacesAscend(|t|, e, x, d, p);
  }

  lemma OldPlacesAscend(n: nat, e: nat, x: nat, d: nat, k: nat)
    requires e <= x <= d < n && k + 1 < n
    ensures var p, q := OldPlace(n, e, x, d, k), OldPlace(n, e, x, d, k + 1);
            p < q || (p == d && q == e)
  {
  }

  function OldPlace(n: nat, e: nat, x: nat, d: nat, k: nat): (p: nat)
    requires e <= x <= d < n && k < n
    ensures p < n
  {
    if k < e || k > d then k
    else if k - e < d + 1 - x then k - e + x
    else k - (d + 1 - x)
  }

  // ---------- walking a readable tree ----------

  /** Without an unreadable directory the walk reaches everything it can open. */
  lemma NeverStops(cur: string, d: Node, sort: seq<Node> -> seq<Node>, opt: DirOpt)
    requires d.Dir? && GoodSort(sort) && !Unreadable(d)
    ensures !WalkDir(cur, d, sort, opt).1
  {
    StopsExactly(cur, d, sort, opt);
  }

  function DirFiles(cur: string, d: Node, sort: seq<Node> -> seq<Node>, opt: DirOpt): seq<string>
    requires d.Dir? && GoodSort(sort)
  {
    FilePaths(WalkDir(cur, d, sort, opt).0)
  }

  function ListFiles(cur: string, d: Node, files: seq<Node>, sort: seq<Node> -> seq<Node>, opt: DirOpt): seq<string>
    requires d.Dir? && GoodSort(sort) && forall x :: x in files ==> x in d.children
  {
    FilePaths(WalkList(cur, d, files, sort, opt).0)
  }

  function NodeFiles(cur: string, x: Node, sort: seq<Node> -> seq<Node>, opt: DirOpt): seq<string>
    requires GoodSort(sort)
  {
    FilePaths(WalkNode(Join(cur, x.name), x, sort, opt).0)
  }

  /** `p` is sent before `q`. */
  ghost predicate Before(paths: seq<string>, p: string, q: string) {
    exists i, j :: 0 <= i < j < |paths| && paths[i] == p && paths[j] == q
  }

  lemma BeforeInConcat(a: seq<string>, b: seq<string>, p: string, q: string)
    ensures Before(a, p, q) || Before(b, p, q) || (p in a && q in b) ==> Before(a + b, p, q)
  {
    var c := a + b;
    if Before(a, p, q) {
      var i, j :| 0 <= i < j < |a| && a[i] == p && a[j] == q;
      assert c[i] == p && c[j] == q;
    } else if Before(b, p, q) {
      var i, j :| 0 <= i < j < |b| && b[i] == p && b[j] == q;
      assert c[|a| + i] == p && c[|a| + j] == q;
    } else if p in a && q in b {
      var i :| 0 <= i < |a| && a[i] == p;
      var j :| 0 <= j < |b| && b[j] == q;
      assert c[i] == p && c[|a| + j] == q;
    }
  }

  lemma ListFilesStep(cur: string, d: Node, files: seq<Node>, sort: seq<Node> -> seq<Node>, opt: DirOpt)
    requires d.Dir? && GoodSort(sort) && d.open.Opened? && !Unreadable(d) && files != []
    requires forall x :: x in files ==> x in d.children
    ensures ListFiles(cur, d, files, sort, opt) == NodeFiles(cur, files[0], sort, opt) + ListFiles(cur, d, files[1..], sort, opt)
  {
    FilePathsOfList(cur, d, files, sort, opt);
    assert files[0] in d.children;
    if files[0].Dir? { NeverStops(Join(cur, files[0].name), files[0], sort, opt); }
  }

  /** A listing sends what its entry `k` sends, in the same order. */
  lemma {:induction false} ListSendsEntry(cur: string, d: Node, files: seq<Node>, sort: seq<Node> -> seq<Node>, opt: DirOpt, k: nat, p: string, q: string)
    requires d.Dir? && GoodSort(sort) && d.open.Opened? && !Unreadable(d) && k < |files|
    requires forall x :: x in files ==> x in d.children
    ensures p in NodeFiles(cur, files[k], sort, opt) ==> p in ListFiles(cur, d, files, sort, opt)
    ensures Before(NodeFiles(cur, files[k], sort, opt), p, q) ==> Before(ListFiles(cur, d, files, sort, opt), p, q)
    decreases k
  {
    ListFilesStep(cur, d, files, sort, opt);
    BeforeInConcat(NodeFiles(cur, files[0], sort, opt), ListFiles(cur, d, files[1..], sort, opt), p, q);
    if k > 0 { ListSendsEntry(cur, d, files[1..], sort, opt, k - 1, p, q); }
  }

  lemma {:induction false} ListSendsInOrder(cur: string, d: Node, files: seq<Node>, sort: seq<Node> -> seq<Node>, opt: DirOpt, i: nat, j: nat, p: string, q: string)
    requires d.Dir? && GoodSort(sort) && d.open.Opened? && !Unreadable(d) && i < j < |files|
    requires forall x :: x in files ==> x in d.children
    requires p in NodeFiles(cur, files[i], sort, opt) && q in NodeFiles(cur, files[j], sort, opt)
    ensures Before(ListFiles(cur, d, files, sort, opt), p, q)
    decreases i
  {
    var mine, rest := NodeFiles(cur, files[0], sort, opt), ListFiles(cur, d, files[1..], sort, opt);
    ListFilesStep(cur, d, files, sort, opt);
    assert files[1..][j - 1] == files[j];
    if i == 0 {
      ListSendsEntry(cur, d, files[1..], sort, opt, j - 1, q, q);
      assert p in mine && q in rest;
    } else {
      assert files[1..][i - 1] == files[i];
      ListSendsInOrder(cur, d, files[1..], sort, opt, i - 1, j - 1, p, q);
      assert Before(rest, p, q);
    }
    BeforeInConcat(mine, rest, p, q);
  }

  lemma SortPlace(d: Node, sort: seq<Node> -> seq<Node>, c: Node) returns (k: nat)
    requires d.Dir? && GoodSort(sort) && c in d.children
    ensures k < |sort(d.children)| && sort(d.children)[k] == c
  {
    SameEntries(sort(d.children), d.children);
    k :| 0 <= k < |sort(d.children)| && sort(d.children)[k] == c;
  }

  /** A directory sends what a child sends, in the same order. */
  lemma DirSendsChild(cur: string, d: Node, sort: seq<Node> -> seq<Node>, opt: DirOpt, c: Node, p: string, q: string)
    requires d.Dir? && GoodSort(sort) && d.open.Opened? && !Unreadable(d) && c in d.children
    ensures p in NodeFiles(cur, c, sort, opt) ==> p in DirFiles(cur, d, sort, opt)
    ensures Before(NodeFiles(cur, c, sort, opt), p, q) ==> Before(DirFiles(cur, d, sort, opt), p, q)
  {
    var k := SortPlace(d, sort, c);
    SameEntries(sort(d.children), d.children);
    ListSendsEntry(cur, d, sort(d.children), sort, opt, k, p, q);
  }

  lemma {:induction false} HolderSendsFile(cur: string, x: Node, sort: seq<Node> -> seq<Node>, opt: DirOpt) returns (p: string)
    requires GoodSort(sort) && !Unreadable(x) && HasFile(x)
    ensures p in NodeFiles(cur, x, sort, opt) && Below(cur, x, p)
    decreases x
  {
    var name := Join(cur, x.name);
    FilePathsOfNode(name, x, sort, opt);
    if x.File? {
      p := name;
    } else {
      var c :| c in x.children && HasFile(c);
      p := HolderSendsFile(name, c, sort, opt);
      DirSendsChild(name, x, sort, opt, c, p, p);
      FilesOfDir(name, x, sort, opt, p);
      assert Join(cur, Key(x)) == name + "/";
    }
  }

  /** A trap anywhere lets some allowed sort send the files out of path order. */
  lemma {:induction false} TrapBreaksOrder(cur: string, d: Node, opt: DirOpt)
    returns (sort: seq<Node> -> seq<Node>, p: string, q: string)
    requires d.Dir? && WellFormed(d) && !Unreadable(d) && Trapped(d)
    ensures GoodSort(sort) && StrLess(q, p) && Before(DirFiles(cur, d, sort, opt), p, q)
    decreases d
  {
    if c :| c in d.children && Trapped(c) {
      sort, p, q := TrapBreaksOrder(Join(cur, c.name), c, opt);
      FilePathsOfNode(Join(cur, c.name), c, sort, opt);
      DirSendsChild(cur, d, sort, opt, c, p, q);
    } else {
      sort, p, q := BadSort(cur, d, opt);
    }
  }

  lemma BadSort(cur: string, d: Node, opt: DirOpt) returns (sort: seq<Node> -> seq<Node>, p: string, q: string)
    requires d.Dir? && WellFormed(d) && d.open.Opened? && !Unreadable(d) && LevelTrap(d.children)
    ensures GoodSort(sort) && StrLess(q, p) && Before(DirFiles(cur, d, sort, opt), p, q)
  {
    var s := d.children;
    var a, e, x, z :| a in s && e in s && x in s && z in s && Encloses(a, e, x, z) && HasFile(x) && HasFile(z);
    var bad, i, j := TrapOrder(s, a, e, x, z);
    InsertionSortIsGood();
    var good := (l: seq<Node>) => InsertionSort(Less, l);
    sort := l => if l == s then bad else good(l);
    SwitchedSortIsGood(good, s, bad);
    p, q := WrongOrderShows(cur, d, sort, opt, i, j);
  }

  lemma SwitchedSortIsGood(good: seq<Node> -> seq<Node>, s: seq<Node>, bad: seq<Node>)
    requires GoodSort(good) && multiset(bad) == multiset(s) && SortedByLess(bad)
    ensures GoodSort(l => if l == s then bad else good(l))
  {
    forall l: seq<Node> ensures multiset(good(l)) == multiset(l) && SortedByLess(good(l)) {}
  }

  lemma WrongOrderShows(cur: string, d: Node, sort: seq<Node> -> seq<Node>, opt: DirOpt, i: nat, j: nat)
    returns (p: string, q: string)
    requires d.Dir? && GoodSort(sort) && WellFormed(d) && d.open.Opened? && !Unreadable(d)
    requires i < j < |sort(d.children)|
    requires HasFile(sort(d.children)[i]) && HasFile(sort(d.children)[j])
    requires StrLess(Key(sort(d.children)[j]), Key(sort(d.children)[i]))
    ensures StrLess(q, p) && Before(DirFiles(cur, d, sort, opt), p, q)
  {
    var x, z := sort(d.children)[i], sort(d.children)[j];
    SameEntries(sort(d.children), d.children);
    ValidUnderSort(d.children, sort(d.children));
    assert x in d.children && z in d.children;
    p := HolderSendsFile(cur, x, sort, opt);
    q := HolderSendsFile(cur, z, sort, opt);
    BelowKeepsOrder(cur, z, x, q, p);
    ListSendsInOrder(cur, d, sort(d.children), sort, opt, i, j, p, q);
  }

  /** A tree without an unreadable directory is walked in path order whatever the sort
      does with the pairs the comparator leaves open, if and only if it has no trap;
      directories that are denied or gone only end their own branch. */
  lemma WalkOrderExactly(cur: string, d: Node, opt: DirOpt)
    requires d.Dir? && WellFormed(d) && !Unreadable(d)
    ensures (forall sort :: GoodSort(sort) ==> Increasing(DirFiles(cur, d, sort, opt)))
       <==> !Trapped(d)
  {
    if Trapped(d) {
      var sort, p, q := TrapBreaksOrder(cur, d, opt);
      StrLessTotal(p, q);
    } else {
      forall sort | GoodSort(sort) ensures Increasing(DirFiles(cur, d, sort, opt)) {
        WalkInOrder(cur, d, sort, opt);
      }
    }
  }

  ghost predicate NamesAboveSeparator(x: Node) {
    && (forall i :: 0 <= i < |x.name| ==> x.name[i] > '/')
    && (x.Dir? ==> forall c :: c in x.children ==> NamesAboveSeparator(c))
  }

  /** Names made of bytes above the separator are never in a trap. */
  lemma {:induction false} PlainNamesHaveNoTrap(x: Node)
    requires NamesAboveSeparator(x)
    ensures !Trapped(x)
  {
    if x.Dir? {
      forall c | c in x.children ensures !Trapped(c) { PlainNamesHaveNoTrap(c); }
      forall d, e | d in x.children && e in x.children ensures !Clash(d, e) {
        assert NamesAboveSeparator(e);
      }
    }
  }

  /** Directories `a` and `a-`, each with one file, form a trap. */
  lemma TrapExample()
    ensures Trapped(Dir("r", Opened, [Dir("a", Opened, [File("f")]), Dir("a-", Opened, [File("f")])]))
  {
    var a, b := Dir("a", Opened, [File("f")]), Dir("a-", Opened, [File("f")]);
    var s := [a, b];
    assert HasFile(a) by { assert File("f") in a.children; }
    assert HasFile(b) by { assert File("f") in b.children; }
    assert StrLess(Key(b), Key(a)) by {
      assert Key(a) == "a/" && Key(b) == "a-/";
      LessFromDifference(Key(b), Key(a), 1);
    }
    assert a in s && b in s && Encloses(a, b, a, b);
  }
}
