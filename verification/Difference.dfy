// Comparing two sorted listings: a merge that looks at one entry of each side.
module Difference {
  import opened Text
  import ClientUrls

  /** An entry of a listing, or the error that ended it.  `key` is what is compared:
      the normalised URL under the target; `valid` says that the name is UTF-8. */
  datatype Content = Content(key: string, valid: bool, regular: bool, size: int, id: int) | Broken(why: int)

  datatype Kind = InType | InSize | InSourceTime | InMetadata | InNone

  datatype Diff =
    | InFirst(entry: Content)
    | InSecond(entry: Content)
    | InBoth(kind: Kind, first: Content, second: Content)
    | InvalidSource(entry: Content)
    | InvalidTarget(entry: Content)

  datatype Options = Options(sourceListingOnly: bool, returnSimilar: bool, isMetadata: bool,
                             newer: (Content, Content) -> bool, metadataDiffer: (Content, Content) -> bool)

  datatype End = Going | Finished | Failed(why: int)

  /** The loop between two rounds: what is left of both channels, what was sent. */
  datatype Loop = Loop(src: seq<Content>, tgt: seq<Content>, sent: seq<Diff>, end: End)

  // ---------- the loop ----------

  /** What is sent for two entries of the same key and type. */
  function PairDiffs(x: Content, y: Content, o: Options): seq<Diff>
    requires x.Content? && y.Content?
  {
    (if x.size != y.size then [InBoth(InSize, x, y)]
     else if o.newer(x, y) then [InBoth(InSourceTime, x, y)]
     else if o.isMetadata && o.metadataDiffer(x, y) then [InBoth(InMetadata, x, y)]
     else [])
    + if o.returnSimilar then [InBoth(InNone, x, y)] else []
  }

  /** One round: an entry of one side goes, or one of each, or, when two entries of
      the same key differ in type, none. */
  function Round(l: Loop, o: Options): Loop {
    if l.end != Going then l
    else if l.src == [] && (o.sourceListingOnly || l.tgt == []) then l.(end := Finished)
    else if l.src != [] && l.src[0].Broken? then l.(end := Failed(l.src[0].why))
    else if l.tgt != [] && l.tgt[0].Broken? then l.(end := Failed(l.tgt[0].why))
    else if l.src == [] then l.(sent := l.sent + [InSecond(l.tgt[0])], tgt := l.tgt[1..])
    else if l.tgt == [] then l.(sent := l.sent + [InFirst(l.src[0])], src := l.src[1..])
    else
      var x, y := l.src[0], l.tgt[0];
      if !x.valid then l.(sent := l.sent + [InvalidSource(x)], src := l.src[1..])
      else if !y.valid then l.(sent := l.sent + [InvalidTarget(y)], tgt := l.tgt[1..])
      else if StrLess(x.key, y.key) then l.(sent := l.sent + [InFirst(x)], src := l.src[1..])
      else if x.key == y.key then
        if x.regular != y.regular then l.(sent := l.sent + [InBoth(InType, x, y)])
        else l.(sent := l.sent + PairDiffs(x, y, o), src := l.src[1..], tgt := l.tgt[1..])
      else l.(sent := l.sent + [InSecond(y)], tgt := l.tgt[1..])
  }

  function Rounds(l: Loop, o: Options, n: nat): Loop
    decreases n
  {
    if n == 0 then l else Rounds(Round(l, o), o, n - 1)
  }

  function Start(src: seq<Content>, tgt: seq<Content>): Loop {
    Loop(src, tgt, [], Going)
  }

  /** `differenceInternal`, watched for `rounds` rounds of its loop. */
  method DifferenceInternal(srcCh: seq<Content>, tgtCh: seq<Content>, o: Options, rounds: nat)
    returns (diffCh: seq<Diff>, end: End)
    ensures (diffCh, end) == var l := Rounds(Start(srcCh, tgtCh), o, rounds); (l.sent, l.end)
  {
    var src, tgt := srcCh, tgtCh;
    diffCh, end := [], Going;
    ghost var last := Rounds(Start(srcCh, tgtCh), o, rounds);
    var k := 0;
    while k < rounds
      invariant k <= rounds && end == Going
      invariant Rounds(Loop(src, tgt, diffCh, Going), o, rounds - k) == last
    {
      k := k + 1;
      EndedStays(Round(Loop(src, tgt, diffCh, Going), o), o, rounds - k);
      var srcEOF, tgtEOF := src == [], tgt == [];
      if o.sourceListingOnly {
        if srcEOF { end := Finished; return; }
      } else {
        if srcEOF && tgtEOF { end := Finished; return; }
      }
      if !srcEOF && src[0].Broken? { end := Failed(src[0].why); return; }
      if !tgtEOF && tgt[0].Broken? { end := Failed(tgt[0].why); return; }
      if srcEOF {
        diffCh, tgt := diffCh + [InSecond(tgt[0])], tgt[1..];
        continue;
      }
      if tgtEOF {
        diffCh, src := diffCh + [InFirst(src[0])], src[1..];
        continue;
      }
      var x, y := src[0], tgt[0];
      if !x.valid {
        diffCh, src := diffCh + [InvalidSource(x)], src[1..];
        continue;
      }
      if !y.valid {
        diffCh, tgt := diffCh + [InvalidTarget(y)], tgt[1..];
        continue;
      }
      if StrLess(x.key, y.key) {
        diffCh, src := diffCh + [InFirst(x)], src[1..];
        continue;
      }
      if x.key == y.key {
        if x.regular != y.regular {
          diffCh := diffCh + [InBoth(InType, x, y)];
          continue;
        }
        diffCh := diffCh + PairDiffs(x, y, o);
        src, tgt := src[1..], tgt[1..];
        continue;
      }
      diffCh, tgt := diffCh + [InSecond(y)], tgt[1..];
    }
  }

  lemma {:induction false} EndedStays(l: Loop, o: Options, n: nat)
    ensures l.end != Going ==> Rounds(l, o, n) == l
    decreases n
  {
    if n > 0 { EndedStays(Round(l, o), o, n - 1); }
  }

  // ---------- what a sorted listing is ----------

  /** A listing without errors and with valid names. */
  ghost predicate Clean(s: seq<Content>) {
    forall i :: 0 <= i < |s| ==> s[i].Content? && s[i].valid
  }

  /** A clean listing in strictly increasing order of keys. */
  ghost predicate Sorted(s: seq<Content>) {
    && Clean(s)
    && (forall i, j :: 0 <= i < j < |s| ==> StrLess(s[i].key, s[j].key))
  }

  ghost predicate Listed(s: seq<Content>, key: string) {
    exists x :: x in s && x.Content? && x.key == key
  }

  /** Two entries of the same key, one of them no regular file. */
  ghost predicate TypeClash(s: seq<Content>, t: seq<Content>) {
    exists x, y :: x in s && y in t && x.Content? && y.Content? && x.key == y.key && x.regular != y.regular
  }

  /** The second listing is still compared at `key`: always, or up to the last key of the first. */
  ghost predicate Reached(s: seq<Content>, key: string, o: Options) {
    !o.sourceListingOnly || exists x :: x in s && x.Content? && StrLess(key, x.key)
  }

  /** The reports that two listings call for. */
  ghost predicate Due(d: Diff, s: seq<Content>, t: seq<Content>, o: Options) {
    match d
    case InFirst(x) => x in s && x.Content? && !Listed(t, x.key)
    case InSecond(y) => y in t && y.Content? && !Listed(s, y.key) && Reached(s, y.key, o)
    case InBoth(kind, x, y) => x in s && y in t && x.Content? && y.Content? && x.key == y.key && KindDue(kind, x, y, o)
    case _ => false
  }

  /** Sizes come first, then times, then metadata when asked for; a pair is also sent as
      it is when similar pairs are asked for. */
  predicate KindDue(kind: Kind, x: Content, y: Content, o: Options)
    requires x.Content? && y.Content?
  {
    match kind
    case InSize => x.size != y.size
    case InSourceTime => x.size == y.size && o.newer(x, y)
    case InMetadata => x.size == y.size && !o.newer(x, y) && o.isMetadata && o.metadataDiffer(x, y)
    case InNone => o.returnSimilar
    case InType => false
  }

  lemma PairDiffsExactly(d: Diff, x: Content, y: Content, o: Options)
    requires x.Content? && y.Content?
    ensures d in PairDiffs(x, y, o) <==> d.InBoth? && d.first == x && d.second == y && KindDue(d.kind, x, y, o)
  {
  }

  /** Any listing in path order, compared under another URL without normalising, is sorted. */
  lemma PathOrderIsSorted(source: string, target: string, suffixes: seq<string>, s: seq<Content>)
    requires |s| == |suffixes|
    requires forall i, j :: 0 <= i < j < |s| ==> StrLess(source + suffixes[i], source + suffixes[j])
    requires forall i :: 0 <= i < |s| ==> s[i].Content? && s[i].valid && s[i].key == target + suffixes[i]
    ensures Sorted(s)
  {
    forall i, j | 0 <= i < j < |s| ensures StrLess(s[i].key, s[j].key) {
      StrLessUnderPrefix(source, suffixes[i], suffixes[j]);
      StrLessUnderPrefix(target, suffixes[i], suffixes[j]);
    }
  }

  // ---------- the loop without a type clash ----------

  /** What is sent when no types clash. */
  function Merge(s: seq<Content>, t: seq<Content>, o: Options): seq<Diff>
    requires Clean(s) && Clean(t)
    decreases |s| + |t|
  {
    if s == [] && (o.sourceListingOnly || t == []) then []
    else if s == [] then [InSecond(t[0])] + Merge(s, t[1..], o)
    else if t == [] || StrLess(s[0].key, t[0].key) then [InFirst(s[0])] + Merge(s[1..], t, o)
    else if s[0].key == t[0].key then PairDiffs(s[0], t[0], o) + Merge(s[1..], t[1..], o)
    else [InSecond(t[0])] + Merge(s, t[1..], o)
  }

  lemma {:induction false} RoundsMerge(s: seq<Content>, t: seq<Content>, sent: seq<Diff>, o: Options, n: nat)
    requires Clean(s) && Clean(t) && !TypeClash(s, t) && n > |s| + |t|
    ensures var l := Rounds(Loop(s, t, sent, Going), o, n); l.end == Finished && l.sent == sent + Merge(s, t, o)
    decreases |s| + |t|
  {
    RoundMerges(s, t, sent, o);
    var next := Round(Loop(s, t, sent, Going), o);
    if next.end != Going {
      EndedStays(next, o, n - 1);
    } else {
      RoundsMerge(next.src, next.tgt, next.sent, o, n - 1);
    }
  }

  lemma RoundMerges(s: seq<Content>, t: seq<Content>, sent: seq<Diff>, o: Options)
    requires Clean(s) && Clean(t) && !TypeClash(s, t)
    ensures var next := Round(Loop(s, t, sent, Going), o);
            if next.end != Going then next.end == Finished && next.sent == sent + Merge(s, t, o)
            else
              && |next.src| + |next.tgt| < |s| + |t|
              && Clean(next.src) && Clean(next.tgt) && !TypeClash(next.src, next.tgt)
              && next.sent + Merge(next.src, next.tgt, o) == sent + Merge(s, t, o)
  {
    if s == [] && (o.sourceListingOnly || t == []) {
      assert sent + [] == sent;
    } else if s == [] {
      Regroup(sent, [InSecond(t[0])], Merge(s, t[1..], o));
    } else if t == [] || StrLess(s[0].key, t[0].key) {
      Regroup(sent, [InFirst(s[0])], Merge(s[1..], t, o));
    } else if s[0].key == t[0].key {
      assert s[0] in s && t[0] in t;
      Regroup(sent, PairDiffs(s[0], t[0], o), Merge(s[1..], t[1..], o));
    } else {
      Regroup(sent, [InSecond(t[0])], Merge(s, t[1..], o));
    }
  }

  lemma Regroup(a: seq<Diff>, b: seq<Diff>, c: seq<Diff>)
    ensures (a + b) + c == a + (b + c)
  {
  }

  // ---------- errors and invalid names ----------

  ghost predicate NoError(s: seq<Content>) {
    forall x :: x in s ==> x.Content?
  }

  lemma {:induction false} ErrorsAreKept(l: Loop, o: Options, n: nat)
    ensures var r := Rounds(l, o, n);
            && (l.end == Going && r.end == Finished ==> NoError(l.src) && (!o.sourceListingOnly ==> NoError(l.tgt)))
            && (l.end == Going && r.end.Failed? ==> Broken(r.end.why) in l.src || Broken(r.end.why) in l.tgt)
    decreases n
  {
    if n > 0 && l.end == Going {
      var next := Round(l, o);
      ErrorsAreKept(next, o, n - 1);
      EndedStays(next, o, n - 1);
      assert l.src != [] ==> l.src == [l.src[0]] + l.src[1..];
      assert l.tgt != [] ==> l.tgt == [l.tgt[0]] + l.tgt[1..];
    }
  }

  /** A comparison that finishes has met no error in the source, nor in the target when
      that is read to its end; one that fails names an error that was met. */
  lemma NoErrorIsSkipped(s: seq<Content>, t: seq<Content>, o: Options, n: nat)
    ensures var end := Rounds(Start(s, t), o, n).end;
            && (end == Finished ==> NoError(s) && (!o.sourceListingOnly ==> NoError(t)))
            && (end.Failed? ==> Broken(end.why) in s || Broken(end.why) in t)
  {
    ErrorsAreKept(Start(s, t), o, n);
  }

  ghost predicate InvalidIsReported(d: Content, sent: seq<Diff>) {
    d.Content? && !d.valid ==> InvalidSource(d) in sent || InvalidTarget(d) in sent || InFirst(d) in sent || InSecond(d) in sent
  }

  /** An invalid name is never dropped: a comparison that finishes has reported it as
      such, or as one that only its side has. */
  lemma {:induction false} InvalidAreReported(l: Loop, o: Options, n: nat)
    requires l.end == Going && Rounds(l, o, n).end == Finished
    ensures var sent := Rounds(l, o, n).sent;
            && l.sent <= sent
            && (forall x :: x in l.src ==> InvalidIsReported(x, sent))
            && (!o.sourceListingOnly ==> forall y :: y in l.tgt ==> InvalidIsReported(y, sent))
    decreases n
  {
    if n > 0 {
      var next := Round(l, o);
      if next.end == Going {
        InvalidAreReported(next, o, n - 1);
        assert l.src != [] ==> l.src == [l.src[0]] + l.src[1..];
        assert l.tgt != [] ==> l.tgt == [l.tgt[0]] + l.tgt[1..];
        var sent := Rounds(l, o, n).sent;
        if |next.sent| > |l.sent| { assert next.sent[|l.sent|] in sent by { assert sent[|l.sent|] == next.sent[|l.sent|]; } }
      } else {
        EndedStays(next, o, n - 1);
      }
    }
  }

  /** A report of two entries is about two valid names with the same key; an invalid
      name is reported as such, or as one that only its side has. */
  ghost predicate Honest(sent: seq<Diff>) {
    forall d :: d in sent ==>
      match d
      case InFirst(x) => x.Content?
      case InSecond(y) => y.Content?
      case InBoth(_, x, y) => x.Content? && y.Content? && x.valid && y.valid && x.key == y.key
      case InvalidSource(x) => x.Content? && !x.valid
      case InvalidTarget(y) => y.Content? && !y.valid
  }

  lemma {:induction false} ReportsAreHonest(l: Loop, o: Options, n: nat)
    requires Honest(l.sent)
    ensures Honest(Rounds(l, o, n).sent)
    decreases n
  {
    if n > 0 {
      var next := Round(l, o);
      forall d | d in next.sent && d !in l.sent
        ensures Honest([d])
      {
        if l.src != [] && l.tgt != [] && l.src[0].Content? && l.tgt[0].Content? { PairDiffsExactly(d, l.src[0], l.tgt[0], o); }
      }
      assert forall d :: d in next.sent ==> d in l.sent || Honest([d]);
      assert forall d :: d in next.sent && d !in l.sent ==> d in [d];
      ReportsAreHonest(next, o, n - 1);
    }
  }

  // ---------- exactly what is due ----------

  /** All entries have keys above `key`. */
  ghost predicate AllAbove(s: seq<Content>, key: string) {
    forall z :: z in s ==> z.Content? && StrLess(key, z.key)
  }

  lemma TailIsAbove(s: seq<Content>)
    requires Sorted(s) && s != []
    ensures Sorted(s[1..]) && AllAbove(s[1..], s[0].key) && forall z :: z in s <==> z == s[0] || z in s[1..]
  {
  }

  lemma WholeIsAbove(s: seq<Content>, key: string)
    requires Sorted(s) && s != [] && StrLess(key, s[0].key)
    ensures AllAbove(s, key)
  {
    TailIsAbove(s);
    forall z | z in s[1..] ensures StrLess(key, z.key) { StrLessTransitive(key, s[0].key, z.key); }
  }

  lemma AboveIsNotListed(s: seq<Content>, key: string)
    requires AllAbove(s, key)
    ensures !Listed(s, key)
  {
    StrLessIrreflexive(key);
  }

  /** The entry with the least key is only in the first listing. */
  lemma DueFirst(d: Diff, s: seq<Content>, t: seq<Content>, o: Options)
    requires Sorted(s) && s != [] && AllAbove(t, s[0].key)
    ensures Due(d, s, t, o) <==> d == InFirst(s[0]) || Due(d, s[1..], t, o)
  {
    TailIsAbove(s);
    AboveIsNotListed(t, s[0].key);
    if d.InSecond? && d.entry in t { NotBoth(s[0].key, d.entry.key); }
    if d.InBoth? && d.second in t { NotBoth(s[0].key, d.second.key); }
  }

  lemma NotBoth(a: string, b: string)
    requires StrLess(a, b)
    ensures !StrLess(b, a) && a != b
  {
    StrLessTotal(a, b);
  }

  /** The entry with the least key is only in the second listing, and still compared. */
  lemma DueSecond(d: Diff, s: seq<Content>, t: seq<Content>, o: Options)
    requires Sorted(t) && t != [] && AllAbove(s, t[0].key) && (o.sourceListingOnly ==> s != [])
    ensures Due(d, s, t, o) <==> d == InSecond(t[0]) || Due(d, s, t[1..], o)
  {
    TailIsAbove(t);
    AboveIsNotListed(s, t[0].key);
    if s != [] { assert s[0] in s; }
    if d.InFirst? && d.entry in s { NotBoth(t[0].key, d.entry.key); }
    if d.InBoth? && d.first in s { NotBoth(t[0].key, d.first.key); }
  }

  /** The least key is in both listings. */
  lemma DueBoth(d: Diff, s: seq<Content>, t: seq<Content>, o: Options)
    requires Sorted(s) && Sorted(t) && s != [] && t != [] && s[0].key == t[0].key
    ensures Due(d, s, t, o) <==> d in PairDiffs(s[0], t[0], o) || Due(d, s[1..], t[1..], o)
  {
    TailIsAbove(s);
    TailIsAbove(t);
    AboveIsNotListed(s[1..], s[0].key);
    AboveIsNotListed(t[1..], t[0].key);
    if d.InFirst? && d.entry in s[1..] { NotBoth(s[0].key, d.entry.key); }
    if d.InSecond? && d.entry in t[1..] { NotBoth(s[0].key, d.entry.key); }
    if d.InBoth? && d.first in s[1..] { NotBoth(s[0].key, d.first.key); }
    if d.InBoth? && d.second in t[1..] { NotBoth(s[0].key, d.second.key); }
  }

  lemma {:induction false} MergeIsDue(d: Diff, s: seq<Content>, t: seq<Content>, o: Options)
    requires Sorted(s) && Sorted(t)
    ensures d in Merge(s, t, o) <==> Due(d, s, t, o)
    decreases |s| + |t|
  {
    if s == [] && (o.sourceListingOnly || t == []) {
    } else if s == [] {
      DueSecond(d, s, t, o);
      MergeIsDue(d, s, t[1..], o);
    } else if t == [] || StrLess(s[0].key, t[0].key) {
      if t != [] { WholeIsAbove(t, s[0].key); }
      DueFirst(d, s, t, o);
      MergeIsDue(d, s[1..], t, o);
    } else if s[0].key == t[0].key {
      DueBoth(d, s, t, o);
      MergeIsDue(d, s[1..], t[1..], o);
    } else {
      StrLessTotal(s[0].key, t[0].key);
      WholeIsAbove(s, t[0].key);
      DueSecond(d, s, t, o);
      MergeIsDue(d, s, t[1..], o);
    }
  }

  // ---------- in order, and once ----------

  function KeyOf(d: Diff): string {
    var x := if d.InBoth? then d.first else d.entry;
    if x.Content? then x.key else ""
  }

  /** By increasing key, and no report twice. */
  ghost predicate InOrderOnce(ds: seq<Diff>) {
    forall i, j :: 0 <= i < j < |ds| ==>
      StrLess(KeyOf(ds[i]), KeyOf(ds[j])) || (KeyOf(ds[i]) == KeyOf(ds[j]) && ds[i] != ds[j])
  }

  lemma HeadInOrder(head: seq<Diff>, rest: seq<Diff>, key: string)
    requires InOrderOnce(head) && InOrderOnce(rest)
    requires forall d :: d in head ==> KeyOf(d) == key
    requires forall d :: d in rest ==> StrLess(key, KeyOf(d))
    ensures InOrderOnce(head + rest)
  {
    var all := head + rest;
    forall i, j | 0 <= i < j < |all|
      ensures StrLess(KeyOf(all[i]), KeyOf(all[j])) || (KeyOf(all[i]) == KeyOf(all[j]) && all[i] != all[j])
    {
      if i < |head| <= j {
        assert all[i] == head[i] && all[j] == rest[j - |head|];
        assert all[i] in head && all[j] in rest;
      }
    }
  }

  lemma {:induction false} MergeInOrder(s: seq<Content>, t: seq<Content>, o: Options, key: string)
    requires Sorted(s) && Sorted(t)
    ensures InOrderOnce(Merge(s, t, o))
    ensures AllAbove(s, key) && AllAbove(t, key) ==> forall d :: d in Merge(s, t, o) ==> StrLess(key, KeyOf(d))
    decreases |s| + |t|
  {
    forall d | d in Merge(s, t, o) && AllAbove(s, key) && AllAbove(t, key) ensures StrLess(key, KeyOf(d)) {
      MergeIsDue(d, s, t, o);
    }
    if s == [] && (o.sourceListingOnly || t == []) {
    } else if s == [] {
      TailIsAbove(t);
      MergeInOrder(s, t[1..], o, t[0].key);
      HeadInOrder([InSecond(t[0])], Merge(s, t[1..], o), t[0].key);
    } else if t == [] || StrLess(s[0].key, t[0].key) {
      TailIsAbove(s);
      if t != [] { WholeIsAbove(t, s[0].key); }
      MergeInOrder(s[1..], t, o, s[0].key);
      HeadInOrder([InFirst(s[0])], Merge(s[1..], t, o), s[0].key);
    } else if s[0].key == t[0].key {
      TailIsAbove(s);
      TailIsAbove(t);
      MergeInOrder(s[1..], t[1..], o, s[0].key);
      HeadInOrder(PairDiffs(s[0], t[0], o), Merge(s[1..], t[1..], o), s[0].key);
    } else {
      StrLessTotal(s[0].key, t[0].key);
      WholeIsAbove(s, t[0].key);
      TailIsAbove(t);
      MergeInOrder(s, t[1..], o, t[0].key);
      HeadInOrder([InSecond(t[0])], Merge(s, t[1..], o), t[0].key);
    }
  }

  // ---------- the main results ----------

  /** On sorted listings without a type clash the loop ends, and has sent exactly
      what is due, each report once, by increasing key. */
  lemma DifferenceExactly(s: seq<Content>, t: seq<Content>, o: Options, n: nat)
    requires Sorted(s) && Sorted(t) && !TypeClash(s, t) && n > |s| + |t|
    ensures var l := Rounds(Start(s, t), o, n);
            l.end == Finished && InOrderOnce(l.sent) && forall d :: d in l.sent <==> Due(d, s, t, o)
  {
    RoundsMerge(s, t, [], o, n);
    assert [] + Merge(s, t, o) == Merge(s, t, o);
    MergeInOrder(s, t, o, "");
    forall d ensures d in Merge(s, t, o) <==> Due(d, s, t, o) { MergeIsDue(d, s, t, o); }
  }

  lemma ClashKeepsGoing(l: Loop, o: Options)
    requires l.end == Going && Sorted(l.src) && Sorted(l.tgt) && TypeClash(l.src, l.tgt)
    ensures var next := Round(l, o);
            next.end == Going && Sorted(next.src) && Sorted(next.tgt) && TypeClash(next.src, next.tgt)
  {
    var s, t := l.src, l.tgt;
    var x, y :| x in s && y in t && x.Content? && y.Content? && x.key == y.key && x.regular != y.regular;
    TailIsAbove(s);
    TailIsAbove(t);
    if StrLess(s[0].key, t[0].key) {
      WholeIsAbove(t, s[0].key);
      NotBoth(s[0].key, y.key);
    } else if s[0].key == t[0].key {
      if x == s[0] { AboveIsNotListed(t[1..], t[0].key); }
      if y == t[0] { AboveIsNotListed(s[1..], s[0].key); }
    } else {
      StrLessTotal(s[0].key, t[0].key);
      WholeIsAbove(s, t[0].key);
      NotBoth(t[0].key, x.key);
    }
  }

  lemma {:induction false} ClashNeverEnds(l: Loop, o: Options, n: nat)
    requires l.end == Going && Sorted(l.src) && Sorted(l.tgt) && TypeClash(l.src, l.tgt)
    ensures Rounds(l, o, n).end == Going
    decreases n
  {
    if n > 0 {
      ClashKeepsGoing(l, o);
      ClashNeverEnds(Round(l, o), o, n - 1);
    }
  }

  /** On sorted listings the loop ends if and only if no key is a regular file on one
      side and not on the other: that report is sent again and again. */
  lemma EndsExactly(s: seq<Content>, t: seq<Content>, o: Options)
    requires Sorted(s) && Sorted(t)
    ensures (exists n :: Rounds(Start(s, t), o, n).end != Going) <==> !TypeClash(s, t)
  {
    if TypeClash(s, t) {
      forall n: nat ensures Rounds(Start(s, t), o, n).end == Going { ClashNeverEnds(Start(s, t), o, n); }
    } else {
      var n := |s| + |t| + 1;
      RoundsMerge(s, t, [], o, n);
      assert Rounds(Start(s, t), o, n).end != Going;
    }
  }

  /** A file on one side and a directory on the other, with the same key: the same report in every round. */
  lemma {:induction false} ClashRepeats(x: Content, y: Content, o: Options, sent: seq<Diff>, n: nat)
    requires x.Content? && y.Content? && x.valid && y.valid && x.key == y.key && x.regular != y.regular
    ensures Rounds(Loop([x], [y], sent, Going), o, n) == Loop([x], [y], sent + seq(n, i => InBoth(InType, x, y)), Going)
    decreases n
  {
    if n == 0 {
      assert sent + seq(n, i => InBoth(InType, x, y)) == sent;
    } else {
      StrLessIrreflexive(x.key);
      var again := sent + [InBoth(InType, x, y)];
      ClashRepeats(x, y, o, again, n - 1);
      assert again + seq(n - 1, i => InBoth(InType, x, y)) == sent + seq(n, i => InBoth(InType, x, y));
    }
  }

  /** The key under which `suffix` is compared: what `ClientUrls.UrlJoinPath` gives. */
  function KeyUnder(target: string, suffix: string): string {
    ClientUrls.WithSlash(ClientUrls.Print(ClientUrls.NewClientUrl(target))) + TrimPrefix(ClientUrls.NewClientUrl(suffix).path, "/")
  }

  /** An object listed under its own URL and a directory marker below that URL have the
      suffixes "" and "/" and so the same key, with different types: the comparison never ends. */
  lemma MarkerClash(target: string, size: int, o: Options, n: nat)
    ensures var obj := Content(KeyUnder(target, ""), true, true, size, 0);
            var marker := Content(KeyUnder(target, "/"), true, false, 0, 1);
            Rounds(Start([obj], [marker]), o, n).end == Going
  {
    var obj := Content(KeyUnder(target, ""), true, true, size, 0);
    var marker := Content(KeyUnder(target, "/"), true, false, 0, 1);
    ShortPaths();
    ClashRepeats(obj, marker, o, [], n);
  }

  lemma ShortPaths()
    ensures TrimPrefix(ClientUrls.NewClientUrl("").path, "/") == TrimPrefix(ClientUrls.NewClientUrl("/").path, "/") == ""
  {
    ClientUrls.NoSeparatorExactly("");
    ClientUrls.NoSeparatorExactly("/");
  }
}
