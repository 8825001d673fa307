// Exactly for which listings, sorted or not, the merge reports what it should.
module DifferenceOrder {
  import opened Text
  import opened Difference

  ghost predicate DistinctKeys(s: seq<Content>)
    requires Clean(s)
  {
    forall i, j :: 0 <= i < j < |s| ==> s[i].key != s[j].key
  }

  /** A listing as the comparison may meet it: clean, and no key twice. */
  ghost predicate Listing(s: seq<Content>) {
    Clean(s) && DistinctKeys(s)
  }

  /** The keys of `s` that are in `t` too, in the order of `s`. */
  ghost function CommonKeys(s: seq<Content>, t: seq<Content>): seq<string>
    requires Clean(s)
  {
    if s == [] then []
    else (if Listed(t, s[0].key) then [s[0].key] else []) + CommonKeys(s[1..], t)
  }

  ghost predicate BelowNext(key: string, common: seq<string>) {
    common == [] || StrLess(key, common[0])
  }

  /** Every entry that only `s` has is below the next key that both have. */
  ghost predicate OwnBelowNext(s: seq<Content>, t: seq<Content>)
    requires Clean(s)
  {
    s != [] ==> OwnBelowNext(s[1..], t) && (Listed(t, s[0].key) || BelowNext(s[0].key, CommonKeys(s[1..], t)))
  }

  /** The common keys come in the same order on both sides, and on each side the
      entries between two of them are below the second. */
  ghost predicate Aligned(s: seq<Content>, t: seq<Content>)
    requires Clean(s) && Clean(t)
  {
    CommonKeys(s, t) == CommonKeys(t, s) && OwnBelowNext(s, t) && OwnBelowNext(t, s)
  }

  /** Reports of entries that only the target has are asked for unless the comparison
      ends with the source. */
  predicate Asked(d: Diff, o: Options) {
    o.sourceListingOnly ==> !d.InSecond?
  }

  /** Of the reports that are asked for, exactly those due are sent. */
  ghost predicate Correct(s: seq<Content>, t: seq<Content>, o: Options)
    requires Clean(s) && Clean(t)
  {
    forall d :: Asked(d, o) ==> (d in Merge(s, t, o) <==> Due(d, s, t, o))
  }

  // ---------- dropping an entry that does not matter ----------

  lemma TailOfListing(s: seq<Content>)
    requires Listing(s) && s != []
    ensures Listing(s[1..]) && !Listed(s[1..], s[0].key)
    ensures forall z :: z in s <==> z == s[0] || z in s[1..]
    ensures forall key :: Listed(s, key) <==> key == s[0].key || Listed(s[1..], key)
  {
    assert forall z :: z in s <==> z == s[0] || z in s[1..];
    forall key ensures Listed(s, key) <==> key == s[0].key || Listed(s[1..], key) {
      if Listed(s[1..], key) {
        var x :| x in s[1..] && x.Content? && x.key == key;
        assert x in s;
      }
      assert s[0] in s;
    }
  }

  /** Both parts of the alignment look at the other side only at their own keys. */
  lemma {:induction false} OnlyOwnKeysMatter(s: seq<Content>, t: seq<Content>, u: seq<Content>)
    requires Clean(s) && forall z :: z in s ==> (Listed(t, z.key) <==> Listed(u, z.key))
    ensures CommonKeys(s, t) == CommonKeys(s, u) && (OwnBelowNext(s, t) <==> OwnBelowNext(s, u))
  {
    if s != [] { OnlyOwnKeysMatter(s[1..], t, u); }
  }

  /** An entry that the other side does not have may go. */
  lemma WithoutOwn(s: seq<Content>, t: seq<Content>)
    requires Listing(s) && Listing(t) && s != [] && !Listed(t, s[0].key)
    ensures Listing(s[1..])
    ensures CommonKeys(s, t) == CommonKeys(s[1..], t) && CommonKeys(t, s) == CommonKeys(t, s[1..])
    ensures OwnBelowNext(s, t) <==> OwnBelowNext(s[1..], t) && BelowNext(s[0].key, CommonKeys(s[1..], t))
    ensures OwnBelowNext(t, s) <==> OwnBelowNext(t, s[1..])
  {
    TailOfListing(s);
    OnlyOwnKeysMatter(t, s, s[1..]);
  }

  lemma WithoutPair(s: seq<Content>, t: seq<Content>)
    requires Listing(s) && Listing(t) && s != [] && t != [] && s[0].key == t[0].key
    ensures Listing(s[1..]) && Listing(t[1..])
    ensures Aligned(s, t) <==> Aligned(s[1..], t[1..])
  {
    TailOfListing(s);
    TailOfListing(t);
    HeadIsCommon(s, t);
    HeadIsCommon(t, s);
    OnlyOwnKeysMatter(s[1..], t, t[1..]);
    OnlyOwnKeysMatter(t[1..], s, s[1..]);
    var a, b := CommonKeys(s[1..], t[1..]), CommonKeys(t[1..], s[1..]);
    assert ([s[0].key] + a)[1..] == a && ([t[0].key] + b)[1..] == b;
  }

  lemma HeadIsCommon(s: seq<Content>, t: seq<Content>)
    requires Clean(s) && s != [] && Listed(t, s[0].key)
    ensures CommonKeys(s, t) == [s[0].key] + CommonKeys(s[1..], t)
    ensures OwnBelowNext(s, t) <==> OwnBelowNext(s[1..], t)
  {
  }

  /** The head of `t` is the next common key, or below it. */
  lemma HeadAtMostNext(t: seq<Content>, s: seq<Content>)
    requires Clean(t) && t != [] && OwnBelowNext(t, s) && CommonKeys(t, s) != []
    ensures t[0].key == CommonKeys(t, s)[0] || StrLess(t[0].key, CommonKeys(t, s)[0])
  {
  }

  lemma OwnFirst(s: seq<Content>, t: seq<Content>)
    requires Listing(s) && Listing(t) && s != [] && !Listed(t, s[0].key)
    requires t == [] || StrLess(s[0].key, t[0].key)
    ensures Listing(s[1..]) && (Aligned(s, t) <==> Aligned(s[1..], t))
  {
    WithoutOwn(s, t);
    if Aligned(s[1..], t) && CommonKeys(t, s[1..]) != [] {
      HeadAtMostNext(t, s[1..]);
      var next := CommonKeys(t, s[1..])[0];
      if t[0].key != next { StrLessTransitive(s[0].key, t[0].key, next); }
    }
  }

  /** A common key that comes first on one side and is below the head of the other. */
  lemma MissedCommon(s: seq<Content>, t: seq<Content>)
    requires Listing(s) && Listing(t) && s != [] && t != []
    requires Listed(t, s[0].key) && StrLess(s[0].key, t[0].key)
    ensures !Aligned(s, t)
  {
    HeadIsCommon(s, t);
    NotBoth(s[0].key, t[0].key);
    if Aligned(s, t) {
      HeadAtMostNext(t, s);
    }
  }

  lemma AlignedBothWays(s: seq<Content>, t: seq<Content>)
    requires Clean(s) && Clean(t)
    ensures Aligned(s, t) <==> Aligned(t, s)
  {
  }

  // ---------- what is sent and what is due ----------

  /** Reports are about the entries that are there. */
  lemma {:induction false} ReportsAreOwn(d: Diff, s: seq<Content>, t: seq<Content>, o: Options)
    requires Clean(s) && Clean(t) && d in Merge(s, t, o)
    ensures match d
      case InFirst(x) => x in s
      case InSecond(y) => y in t
      case InBoth(_, x, y) => x in s && y in t
      case _ => false
    decreases |s| + |t|
  {
    if s == [] && (o.sourceListingOnly || t == []) {
    } else if s == [] {
      if d in Merge(s, t[1..], o) { ReportsAreOwn(d, s, t[1..], o); }
    } else if t == [] || StrLess(s[0].key, t[0].key) {
      if d in Merge(s[1..], t, o) { ReportsAreOwn(d, s[1..], t, o); }
    } else if s[0].key == t[0].key {
      if d in Merge(s[1..], t[1..], o) { ReportsAreOwn(d, s[1..], t[1..], o); }
    } else {
      if d in Merge(s, t[1..], o) { ReportsAreOwn(d, s, t[1..], o); }
    }
  }

  lemma DueWithoutFirst(d: Diff, s: seq<Content>, t: seq<Content>, o: Options)
    requires Listing(s) && s != [] && !Listed(t, s[0].key)
    ensures Asked(d, o) ==> (Due(d, s, t, o) <==> d == InFirst(s[0]) || Due(d, s[1..], t, o))
    ensures !Due(InFirst(s[0]), s[1..], t, o) && s[0] !in s[1..]
  {
    TailOfListing(s);
  }

  lemma DueWithoutSecond(d: Diff, s: seq<Content>, t: seq<Content>, o: Options)
    requires Listing(t) && t != [] && !Listed(s, t[0].key)
    ensures Asked(d, o) ==> (Due(d, s, t, o) <==> d == InSecond(t[0]) || Due(d, s, t[1..], o))
    ensures !Due(InSecond(t[0]), s, t[1..], o) && t[0] !in t[1..]
  {
    TailOfListing(t);
  }

  lemma DueWithoutPair(d: Diff, s: seq<Content>, t: seq<Content>, o: Options)
    requires Listing(s) && Listing(t) && s != [] && t != [] && s[0].key == t[0].key
    ensures Asked(d, o) ==> (Due(d, s, t, o) <==> d in PairDiffs(s[0], t[0], o) || Due(d, s[1..], t[1..], o))
    ensures s[0] !in s[1..] && (d in PairDiffs(s[0], t[0], o) ==> !Due(d, s[1..], t[1..], o))
  {
    TailOfListing(s);
    TailOfListing(t);
  }

  /** A head that only one side has is reported rightly, and the rest decides. */
  lemma FirstDoesNotMatter(s: seq<Content>, t: seq<Content>, o: Options)
    requires Listing(s) && Listing(t) && s != [] && !Listed(t, s[0].key)
    requires t == [] || StrLess(s[0].key, t[0].key)
    ensures Correct(s, t, o) <==> Correct(s[1..], t, o)
  {
    forall d | Asked(d, o)
      ensures (d in Merge(s, t, o) <==> Due(d, s, t, o)) <==> (d in Merge(s[1..], t, o) <==> Due(d, s[1..], t, o))
    {
      DueWithoutFirst(d, s, t, o);
      if d == InFirst(s[0]) && d in Merge(s[1..], t, o) { ReportsAreOwn(d, s[1..], t, o); }
    }
  }

  lemma SecondDoesNotMatter(s: seq<Content>, t: seq<Content>, o: Options)
    requires Listing(s) && Listing(t) && t != [] && !Listed(s, t[0].key)
    requires s == [] || StrLess(t[0].key, s[0].key)
    ensures Correct(s, t, o) <==> Correct(s, t[1..], o)
  {
    if s != [] { NotBoth(t[0].key, s[0].key); }
    forall d | Asked(d, o)
      ensures (d in Merge(s, t, o) <==> Due(d, s, t, o)) <==> (d in Merge(s, t[1..], o) <==> Due(d, s, t[1..], o))
    {
      DueWithoutSecond(d, s, t, o);
      if d == InSecond(t[0]) && d in Merge(s, t[1..], o) { ReportsAreOwn(d, s, t[1..], o); }
    }
  }

  lemma PairDoesNotMatter(s: seq<Content>, t: seq<Content>, o: Options)
    requires Listing(s) && Listing(t) && s != [] && t != [] && s[0].key == t[0].key
    ensures Correct(s, t, o) <==> Correct(s[1..], t[1..], o)
  {
    StrLessIrreflexive(s[0].key);
    forall d | Asked(d, o)
      ensures (d in Merge(s, t, o) <==> Due(d, s, t, o)) <==> (d in Merge(s[1..], t[1..], o) <==> Due(d, s[1..], t[1..], o))
    {
      DueWithoutPair(d, s, t, o);
      if d in PairDiffs(s[0], t[0], o) && d in Merge(s[1..], t[1..], o) { ReportsAreOwn(d, s[1..], t[1..], o); }
    }
  }

  /** A head that both sides have, below the other head, is reported as missing. */
  lemma MissedIsWrong(s: seq<Content>, t: seq<Content>, o: Options)
    requires Listing(s) && Listing(t) && s != [] && t != [] && s[0].key != t[0].key
    ensures StrLess(s[0].key, t[0].key) && Listed(t, s[0].key) ==> !Correct(s, t, o)
    ensures StrLess(t[0].key, s[0].key) && Listed(s, t[0].key) ==> !Correct(s, t, o)
  {
    if StrLess(s[0].key, t[0].key) && Listed(t, s[0].key) {
      assert s[0] in s && InFirst(s[0]) in Merge(s, t, o) && !Due(InFirst(s[0]), s, t, o);
    } else if StrLess(t[0].key, s[0].key) && Listed(s, t[0].key) {
      NotBoth(t[0].key, s[0].key);
      var x :| x in s && x.Content? && x.key == t[0].key;
      TailOfListing(t);
      UnlistedIsSent(x, s, t[1..], o);
      assert t[0] in t && InFirst(x) in Merge(s, t, o) && !Due(InFirst(x), s, t, o);
    }
  }

  /** An entry of the source without a partner in the target is always sent as missing. */
  lemma {:induction false} UnlistedIsSent(x: Content, s: seq<Content>, t: seq<Content>, o: Options)
    requires Clean(s) && Clean(t) && x in s && x.Content? && !Listed(t, x.key)
    ensures InFirst(x) in Merge(s, t, o)
    decreases |s| + |t|
  {
    assert t != [] ==> t[0] in t;
    assert forall z :: z in s <==> z == s[0] || z in s[1..];
    assert forall z :: t != [] && z in t[1..] ==> z in t;
    if t == [] || StrLess(s[0].key, t[0].key) {
      if x != s[0] { UnlistedIsSent(x, s[1..], t, o); }
    } else if s[0].key == t[0].key {
      UnlistedIsSent(x, s[1..], t[1..], o);
    } else {
      UnlistedIsSent(x, s, t[1..], o);
    }
  }

  lemma {:induction false} CorrectExactly(s: seq<Content>, t: seq<Content>, o: Options)
    requires Listing(s) && Listing(t)
    ensures Correct(s, t, o) <==> Aligned(s, t)
    decreases |s| + |t|
  {
    if s == [] && t == [] {
    } else if s == [] || (t != [] && StrLess(t[0].key, s[0].key)) {
      AlignedBothWays(s, t);
      if s != [] && Listed(s, t[0].key) {
        NotBoth(t[0].key, s[0].key);
        MissedIsWrong(s, t, o);
        MissedCommon(t, s);
      } else {
        OwnFirst(t, s);
        AlignedBothWays(s, t[1..]);
        SecondDoesNotMatter(s, t, o);
        CorrectExactly(s, t[1..], o);
      }
    } else if t == [] || StrLess(s[0].key, t[0].key) {
      if Listed(t, s[0].key) {
        NotBoth(s[0].key, t[0].key);
        MissedIsWrong(s, t, o);
        MissedCommon(s, t);
      } else {
        OwnFirst(s, t);
        FirstDoesNotMatter(s, t, o);
        CorrectExactly(s[1..], t, o);
      }
    } else {
      StrLessTotal(s[0].key, t[0].key);
      WithoutPair(s, t);
      PairDoesNotMatter(s, t, o);
      CorrectExactly(s[1..], t[1..], o);
    }
  }

  // ---------- the main result ----------

  /** On listings without a type clash, in any order: of the reports asked for the loop
      has sent exactly those due if and only if the listings are aligned. */
  lemma ReportsExactly(s: seq<Content>, t: seq<Content>, o: Options, n: nat)
    requires Listing(s) && Listing(t) && !TypeClash(s, t) && n > |s| + |t|
    ensures (forall d :: Asked(d, o) ==> (d in Rounds(Start(s, t), o, n).sent <==> Due(d, s, t, o))) <==> Aligned(s, t)
  {
    RoundsMerge(s, t, [], o, n);
    assert [] + Merge(s, t, o) == Merge(s, t, o);
    CorrectExactly(s, t, o);
  }

  /** Equal listings are aligned in any order, and so are sorted ones. */
  lemma {:induction false} AllCommonIsAligned(s: seq<Content>, t: seq<Content>)
    requires Clean(s) && forall x :: x in s ==> Listed(t, x.key)
    ensures OwnBelowNext(s, t)
  {
    if s != [] { AllCommonIsAligned(s[1..], t); }
  }

  lemma EqualIsAligned(s: seq<Content>)
    requires Clean(s)
    ensures Aligned(s, s)
  {
    AllCommonIsAligned(s, s);
  }

  lemma SortedIsAligned(s: seq<Content>, t: seq<Content>)
    requires Sorted(s) && Sorted(t)
    ensures Listing(s) && Listing(t) && Aligned(s, t)
  {
    forall i, j | 0 <= i < j < |s| ensures s[i].key != s[j].key { NotBoth(s[i].key, s[j].key); }
    forall i, j | 0 <= i < j < |t| ensures t[i].key != t[j].key { NotBoth(t[i].key, t[j].key); }
    var o := Options(false, false, false, (x, y) => false, (x, y) => false);
    forall d ensures d in Merge(s, t, o) <==> Due(d, s, t, o) { MergeIsDue(d, s, t, o); }
    CorrectExactly(s, t, o);
  }

  /** The same two entries in different orders are not aligned, and the lower one is
      reported as missing on either side.  Normalising makes such listings: a decomposed
      e-acute sorts before "f", its composed form after. */
  lemma SwappedIsMisreported(a: Content, b: Content, o: Options)
    requires a.Content? && b.Content? && a.valid && b.valid && StrLess(a.key, b.key)
    ensures !Aligned([b, a], [a, b])
    ensures InFirst(a) in Merge([b, a], [a, b], o) && InSecond(a) in Merge([b, a], [a, b], o)
  {
    var s, t := [b, a], [a, b];
    NotBoth(a.key, b.key);
    StrLessIrreflexive(b.key);
    assert a in s && Listed(s, a.key);
    MissedCommon(t, s);
    assert t[1..] == [b] && s[1..] == [a] && [b][1..] == [] && [a][1..] == [];
    assert Merge([a], [], o) == [InFirst(a)] + Merge([], [], o);
    assert Merge(s, [b], o) == PairDiffs(b, b, o) + Merge([a], [], o);
  }
}
