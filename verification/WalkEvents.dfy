// What `listDirOpt` sends: the channel, the place of directory entries, what
// the choice of directory option changes, and what follows a stopping error.
module WalkEvents {
  import opened Text
  import opened DirOrder
  import opened DirWalk
  import opened Sequences

  // ---------- the method over a channel ----------

  class Channel {
    var sent: seq<Event>
    var closed: bool

    constructor ()
      ensures sent == [] && !closed
    {
      sent, closed := [], false;
    }

    method Send(e: Event)
      requires !closed
      modifies this`sent
      ensures sent == old(sent) + [e]
    {
      sent := sent + [e];
    }
  }

  /** The closure `listDir`: sends one directory and says whether to stop. */
  method ListDir(cur: string, d: Node, sort: seq<Node> -> seq<Node>, opt: DirOpt, isIncomplete: bool, ch: Channel)
    returns (isStop: bool)
    requires d.Dir? && GoodSort(sort) && !ch.closed
    modifies ch`sent
    ensures ch.sent == old(ch.sent) + WalkDir(cur, d, sort, Shown(opt, isIncomplete)).0
    ensures isStop == WalkDir(cur, d, sort, Shown(opt, isIncomplete)).1
    decreases d, 0
  {
    ghost var shown := Shown(opt, isIncomplete);
    if !d.open.Opened? {
      ch.Send(Failed(cur, d.open));
      return d.open.OtherError?;
    }
    var files := sort(d.children);
    SameEntries(files, d.children);
    ghost var all := WalkList(cur, d, files, sort, shown);
    var i := 0;
    while i < |files|
      invariant i <= |files|
      invariant ch.sent + WalkList(cur, d, files[i..], sort, shown).0 == old(ch.sent) + all.0
      invariant WalkList(cur, d, files[i..], sort, shown).1 == all.1
    {
      var file := files[i];
      assert file in d.children;
      WalkListStep(cur, d, files, i, sort, shown);
      var stop := ListEntry(Join(cur, file.name), file, sort, opt, isIncomplete, ch);
      if stop { return true; }
      i := i + 1;
    }
    return false;
  }

  /** The body of the loop of `listDir`. */
  method ListEntry(name: string, file: Node, sort: seq<Node> -> seq<Node>, opt: DirOpt, isIncomplete: bool, ch: Channel)
    returns (isStop: bool)
    requires GoodSort(sort) && !ch.closed
    modifies ch`sent
    ensures ch.sent == old(ch.sent) + WalkNode(name, file, sort, Shown(opt, isIncomplete)).0
    ensures isStop == WalkNode(name, file, sort, Shown(opt, isIncomplete)).1
    decreases file, 1
  {
    if file.File? {
      ch.Send(Entry(name, false));
      return false;
    }
    if opt == DirFirst && !isIncomplete { ch.Send(Entry(name, true)); }
    isStop := ListDir(name, file, sort, opt, isIncomplete, ch);
    if !isStop && opt == DirLast && !isIncomplete { ch.Send(Entry(name, true)); }
  }

  lemma WalkListStep(cur: string, d: Node, files: seq<Node>, i: nat, sort: seq<Node> -> seq<Node>, opt: DirOpt)
    requires d.Dir? && GoodSort(sort) && i < |files|
    requires forall x :: x in files ==> x in d.children
    ensures var mine := WalkNode(Join(cur, files[i].name), files[i], sort, opt);
            var rest := WalkList(cur, d, files[i + 1..], sort, opt);
            WalkList(cur, d, files[i..], sort, opt)
            == if mine.1 then (mine.0, true) else (mine.0 + rest.0, rest.1)
  {
    var left := files[i..];
    assert left[0] == files[i] && left[1..] == files[i + 1..];
  }

  /** The directory that `readDir` finds at a path whose trailing slash is gone:
      for the root of the file system that path is empty, and cannot be opened. */
  function Opening(cur: string, root: Node): (d: Node)
    requires root.Dir?
    ensures d.Dir? && (cur != "" ==> d == root)
  {
    if cur == "" then Dir("", NotExist, []) else root
  }

  /** The root of the file system is never listed: its path without the slash is empty. */
  lemma RootIsNotFound(root: Node, sort: seq<Node> -> seq<Node>, opt: DirOpt)
    requires root.Dir? && GoodSort(sort)
    ensures TrimSuffix("/", "/") == "" && WalkDir("", Opening("", root), sort, opt) == ([Failed("", NotExist)], false)
  {
  }

  function Framed(cur: string, d: Node, sort: seq<Node> -> seq<Node>, opt: DirOpt): seq<Event>
    requires d.Dir? && GoodSort(sort)
  {
    (if opt.DirFirst? then [Entry(cur, true)] else [])
    + WalkDir(cur, d, sort, opt).0
    + (if opt.DirLast? then [Entry(cur, true)] else [])
  }

  method ListDirOpt(path: string, root: Node, sort: seq<Node> -> seq<Node>, opt: DirOpt, isIncomplete: bool, ch: Channel)
    requires root.Dir? && GoodSort(sort) && !ch.closed
    modifies ch
    ensures ch.closed
    ensures var cur := TrimSuffix(path, "/");
            ch.sent == old(ch.sent) + Framed(cur, Opening(cur, root), sort, Shown(opt, isIncomplete))
  {
    var cur := TrimSuffix(path, "/");
    ghost var self := [Entry(cur, true)];
    ghost var shown := Shown(opt, isIncomplete);
    if opt == DirFirst && !isIncomplete { ch.Send(Entry(cur, true)); }
    assert ch.sent == old(ch.sent) + (if shown.DirFirst? then self else []);
    var stop := ListDir(cur, Opening(cur, root), sort, opt, isIncomplete, ch);
    if opt == DirLast && !isIncomplete { ch.Send(Entry(cur, true)); }
    assert ch.sent == old(ch.sent) + (if shown.DirFirst? then self else [])
      + WalkDir(cur, Opening(cur, root), sort, shown).0 + (if shown.DirLast? then self else []);
    ch.closed := true;
  }

  // ---------- what the directory option changes ----------

  predicate IsDirEntry(e: Event) {
    e.Entry? && e.isDir
  }

  function WithoutDirs(events: seq<Event>): seq<Event> {
    if events == [] then []
    else (if IsDirEntry(events[0]) then [] else [events[0]]) + WithoutDirs(events[1..])
  }

  function DirCount(events: seq<Event>): nat {
    if events == [] then 0
    else (if IsDirEntry(events[0]) then 1 else 0) + DirCount(events[1..])
  }

  lemma {:induction false} WithoutDirsOfConcat(a: seq<Event>, b: seq<Event>)
    ensures WithoutDirs(a + b) == WithoutDirs(a) + WithoutDirs(b)
  {
    if a == [] {
      assert a + b == b;
    } else {
      var tail := a[1..];
      WithoutDirsOfConcat(tail, b);
      assert a + b == [a[0]] + (tail + b);
      WithoutDirsStep(a[0], tail + b);
      WithoutDirsStep(a[0], tail);
      assert a == [a[0]] + tail;
      Regrouped(if IsDirEntry(a[0]) then [] else [a[0]], WithoutDirs(tail), WithoutDirs(b));
    }
  }

  lemma WithoutDirsStep(e: Event, rest: seq<Event>)
    ensures WithoutDirs([e] + rest) == (if IsDirEntry(e) then [] else [e]) + WithoutDirs(rest)
  {
    assert ([e] + rest)[1..] == rest;
  }

  lemma Regrouped(a: seq<Event>, b: seq<Event>, c: seq<Event>)
    ensures a + (b + c) == (a + b) + c
  {
  }

  lemma {:induction false} DirCountOfConcat(a: seq<Event>, b: seq<Event>)
    ensures DirCount(a + b) == DirCount(a) + DirCount(b)
  {
    if a == [] {
      assert a + b == b;
    } else {
      DirCountOfConcat(a[1..], b);
      assert (a + b)[1..] == a[1..] + b;
    }
  }

  lemma RemoveFromMultiset(b: seq<Event>, k: nat)
    requires k < |b|
    ensures multiset(b[..k] + b[k + 1..]) == multiset(b) - multiset{b[k]}
  {
    assert b == b[..k] + ([b[k]] + b[k + 1..]);
  }

  lemma SameWithoutFirst(a: seq<Event>, b: seq<Event>, k: nat)
    requires multiset(a) == multiset(b) && a != [] && k < |b| && b[k] == a[0]
    ensures multiset(a[1..]) == multiset(b[..k] + b[k + 1..])
  {
    RemoveFromMultiset(a, 0);
    assert a[..0] + a[1..] == a[1..];
    RemoveFromMultiset(b, k);
  }

  lemma RemoveFromCount(b: seq<Event>, k: nat)
    requires k < |b|
    ensures DirCount(b) == DirCount(b[..k] + b[k + 1..]) + (if IsDirEntry(b[k]) then 1 else 0)
  {
    var before, from, after := b[..k], b[k..], b[k + 1..];
    assert b == before + from && from[1..] == after;
    DirCountOfConcat(before, from);
    DirCountOfConcat(before, after);
  }

  lemma {:induction false} CountsFollowMultiset(a: seq<Event>, b: seq<Event>)
    requires multiset(a) == multiset(b)
    ensures DirCount(a) == DirCount(b)
  {
    if a == [] {
      assert b == [] by { assert |b| == |multiset(b)| == |multiset(a)| == 0; }
    } else {
      assert a[0] in multiset(b);
      var k := PlaceOf(b, a[0]);
      var rest := b[..k] + b[k + 1..];
      SameWithoutFirst(a, b, k);
      RemoveFromCount(b, k);
      CountsFollowMultiset(a[1..], rest);
    }
  }

  /** Files and errors, and the decision to stop, do not depend on the option.
      Without a stop the two options send the same events, in a different order;
      after a stop below the root directory entries are missing from `DirLast`. */
  ghost predicate SameButDirs(first: (seq<Event>, bool), last: (seq<Event>, bool)) {
    && first.1 == last.1
    && WithoutDirs(first.0) == WithoutDirs(last.0)
    && DirCount(first.0) >= DirCount(last.0)
    && (!first.1 ==> multiset(first.0) == multiset(last.0))
  }

  lemma {:induction false} OptionsOnDir(cur: string, d: Node, sort: seq<Node> -> seq<Node>)
    requires d.Dir? && GoodSort(sort)
    ensures SameButDirs(WalkDir(cur, d, sort, DirFirst), WalkDir(cur, d, sort, DirLast))
    ensures WalkDir(cur, d, sort, DirFirst).1 && d.open.Opened?
        ==> DirCount(WalkDir(cur, d, sort, DirFirst).0) > DirCount(WalkDir(cur, d, sort, DirLast).0)
    decreases d, 1, 0
  {
    if d.open.Opened? {
      SameEntries(sort(d.children), d.children);
      OptionsOnList(cur, d, sort(d.children), sort);
    }
  }

  lemma {:induction false} OptionsOnList(cur: string, d: Node, files: seq<Node>, sort: seq<Node> -> seq<Node>)
    requires d.Dir? && GoodSort(sort)
    requires forall x :: x in files ==> x in d.children
    ensures SameButDirs(WalkList(cur, d, files, sort, DirFirst), WalkList(cur, d, files, sort, DirLast))
    ensures WalkList(cur, d, files, sort, DirFirst).1
        ==> DirCount(WalkList(cur, d, files, sort, DirFirst).0) > DirCount(WalkList(cur, d, files, sort, DirLast).0)
    decreases d, 0, |files|
  {
    if files != [] {
      assert files[0] in d.children;
      var name := Join(cur, files[0].name);
      OptionsOnNode(name, files[0], sort);
      var first, last := WalkNode(name, files[0], sort, DirFirst), WalkNode(name, files[0], sort, DirLast);
      if !first.1 {
        OptionsOnList(cur, d, files[1..], sort);
        WithoutDirsOfConcat(first.0, WalkList(cur, d, files[1..], sort, DirFirst).0);
        DirCountOfConcat(first.0, WalkList(cur, d, files[1..], sort, DirFirst).0);
        WithoutDirsOfConcat(last.0, WalkList(cur, d, files[1..], sort, DirLast).0);
        DirCountOfConcat(last.0, WalkList(cur, d, files[1..], sort, DirLast).0);
      }
    }
  }

  lemma {:induction false} OptionsOnNode(name: string, x: Node, sort: seq<Node> -> seq<Node>)
    requires GoodSort(sort)
    ensures SameButDirs(WalkNode(name, x, sort, DirFirst), WalkNode(name, x, sort, DirLast))
    ensures WalkNode(name, x, sort, DirFirst).1
        ==> DirCount(WalkNode(name, x, sort, DirFirst).0) > DirCount(WalkNode(name, x, sort, DirLast).0)
    decreases x, 2, 0
  {
    if x.Dir? {
      OptionsOnDir(name, x, sort);
      OptionsWrapped(WalkDir(name, x, sort, DirFirst), WalkDir(name, x, sort, DirLast), name);
    }
  }

  lemma OptionsWrapped(first: (seq<Event>, bool), last: (seq<Event>, bool), name: string)
    requires SameButDirs(first, last)
    ensures var self := [Entry(name, true)];
            var first' := (self + first.0 + [], first.1);
            var last' := ([] + last.0 + (if last.1 then [] else self), last.1);
            SameButDirs(first', last') && (first.1 ==> DirCount(first'.0) > DirCount(last'.0))
  {
    var self := [Entry(name, true)];
    assert self + first.0 + [] == self + first.0;
    assert [] + last.0 + self == last.0 + self && [] + last.0 + [] == last.0;
    WithoutDirsOfConcat(self, first.0);
    DirCountOfConcat(self, first.0);
    WithoutDirsOfConcat(last.0, self);
    DirCountOfConcat(last.0, self);
  }

  /** Some directory at or below `d` that the walk reaches fails with an error that stops it. */
  ghost predicate Unreadable(d: Node)
    decreases d, 1
  {
    d.Dir? && (d.open.OtherError? || UnreadableBelow(d))
  }

  ghost predicate UnreadableBelow(d: Node)
    requires d.Dir?
    decreases d, 0
  {
    d.open.Opened? && exists c :: c in d.children && Unreadable(c)
  }

  /** The walk stops exactly on trees with an unreadable directory, whatever the sort and the option. */
  lemma {:induction false} StopsExactly(cur: string, d: Node, sort: seq<Node> -> seq<Node>, opt: DirOpt)
    requires d.Dir? && GoodSort(sort)
    ensures WalkDir(cur, d, sort, opt).1 <==> Unreadable(d)
    decreases d, 1, 0
  {
    if d.open.Opened? {
      SameEntries(sort(d.children), d.children);
      StopsInList(cur, d, sort(d.children), sort, opt);
    }
  }

  lemma {:induction false} StopsInList(cur: string, d: Node, files: seq<Node>, sort: seq<Node> -> seq<Node>, opt: DirOpt)
    requires d.Dir? && GoodSort(sort)
    requires forall x :: x in files ==> x in d.children
    ensures WalkList(cur, d, files, sort, opt).1 <==> exists c :: c in files && Unreadable(c)
    decreases d, 0, |files|
  {
    if files != [] {
      assert files[0] in d.children;
      if files[0].Dir? { StopsExactly(Join(cur, files[0].name), files[0], sort, opt); }
      StopsInList(cur, d, files[1..], sort, opt);
      assert forall c :: c in files <==> c == files[0] || c in files[1..];
    }
  }

  /** Walking with directories first and with directories last: the same files
      and errors in the same order always, and the same events exactly when no
      directory below the root is unreadable. */
  lemma FirstAndLastExactly(cur: string, d: Node, sort: seq<Node> -> seq<Node>)
    requires d.Dir? && GoodSort(sort)
    ensures WithoutDirs(Framed(cur, d, sort, DirFirst)) == WithoutDirs(Framed(cur, d, sort, DirLast))
    ensures multiset(Framed(cur, d, sort, DirFirst)) == multiset(Framed(cur, d, sort, DirLast)) <==> !UnreadableBelow(d)
  {
    var first, last := WalkDir(cur, d, sort, DirFirst), WalkDir(cur, d, sort, DirLast);
    StopsExactly(cur, d, sort, DirFirst);
    OptionsOnDir(cur, d, sort);
    FramesAreSums(cur, d, sort);
    FramesCompare([Entry(cur, true)], first.0, last.0);
  }

  /** With one unreadable directory below the root the entry of that directory is missing from `DirLast`. */
  lemma UnreadableChildIsMissing(cur: string, sort: seq<Node> -> seq<Node>)
    requires GoodSort(sort)
    ensures var d := Dir("", Opened, [Dir("x", OtherError, [])]);
            multiset(Framed(cur, d, sort, DirFirst)) != multiset(Framed(cur, d, sort, DirLast))
  {
    var x := Dir("x", OtherError, []);
    var d := Dir("", Opened, [x]);
    assert x in d.children && Unreadable(x);
    FirstAndLastExactly(cur, d, sort);
  }

  lemma FramesAreSums(cur: string, d: Node, sort: seq<Node> -> seq<Node>)
    requires d.Dir? && GoodSort(sort)
    ensures Framed(cur, d, sort, DirFirst) == [Entry(cur, true)] + WalkDir(cur, d, sort, DirFirst).0
    ensures Framed(cur, d, sort, DirLast) == WalkDir(cur, d, sort, DirLast).0 + [Entry(cur, true)]
  {
  }

  lemma FramesCompare(self: seq<Event>, first: seq<Event>, last: seq<Event>)
    requires |self| == 1 && IsDirEntry(self[0])
    ensures WithoutDirs(self + first) == WithoutDirs(first) && WithoutDirs(last + self) == WithoutDirs(last)
    ensures multiset(first) == multiset(last) ==> multiset(self + first) == multiset(last + self)
    ensures DirCount(first) > DirCount(last) ==> multiset(self + first) != multiset(last + self)
  {
    assert self[1..] == [] && WithoutDirs(self) == [];
    WithoutDirsOfConcat(self, first);
    WithoutDirsOfConcat(last, self);
    DirCountOfConcat(self, first);
    DirCountOfConcat(last, self);
    if multiset(self + first) == multiset(last + self) {
      CountsFollowMultiset(self + first, last + self);
    }
  }

  // ---------- stopping errors ----------

  predicate IsStopping(e: Event) {
    e.Failed? && e.why.OtherError?
  }

  /** A stopping error is the last event; a walk that does not stop sent none. */
  ghost predicate StopIsLast(r: (seq<Event>, bool)) {
    if r.1 then r.0 != [] && forall i :: 0 <= i < |r.0| ==> (IsStopping(r.0[i]) <==> i == |r.0| - 1)
    else forall i :: 0 <= i < |r.0| ==> !IsStopping(r.0[i])
  }

  lemma {:induction false} StoppingDir(cur: string, d: Node, sort: seq<Node> -> seq<Node>, opt: DirOpt)
    requires d.Dir? && GoodSort(sort)
    ensures StopIsLast(WalkDir(cur, d, sort, opt))
    decreases d, 1, 0
  {
    if d.open.Opened? {
      SameEntries(sort(d.children), d.children);
      StoppingList(cur, d, sort(d.children), sort, opt);
    }
  }

  lemma {:induction false} StoppingList(cur: string, d: Node, files: seq<Node>, sort: seq<Node> -> seq<Node>, opt: DirOpt)
    requires d.Dir? && GoodSort(sort)
    requires forall x :: x in files ==> x in d.children
    ensures StopIsLast(WalkList(cur, d, files, sort, opt))
    decreases d, 0, |files|
  {
    if files != [] {
      assert files[0] in d.children;
      if files[0].Dir? { StoppingDir(Join(cur, files[0].name), files[0], sort, opt); }
      StoppingList(cur, d, files[1..], sort, opt);
    }
  }

  /** After a stopping error nothing is sent but the closing entry of the root. */
  lemma NothingAfterStop(cur: string, d: Node, sort: seq<Node> -> seq<Node>, opt: DirOpt, i: nat)
    requires d.Dir? && GoodSort(sort)
    requires i < |Framed(cur, d, sort, opt)| && IsStopping(Framed(cur, d, sort, opt)[i])
    ensures Framed(cur, d, sort, opt)[i + 1..] == if opt.DirLast? then [Entry(cur, true)] else []
  {
    StoppingDir(cur, d, sort, opt);
    var before := if opt.DirFirst? then [Entry(cur, true)] else [];
    var events := WalkDir(cur, d, sort, opt).0;
    assert |before| <= i < |before| + |events|;
    assert Framed(cur, d, sort, opt)[i] == events[i - |before|];
  }
}
