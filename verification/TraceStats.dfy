// The trace aggregator: one record for each function name, updated with every
// trace, against what the record stands for.
module TraceStats {
  import opened Sequences

  datatype Http = NoHttp | Http(inputBytes: int, outputBytes: int, timeToFirstByte: int)

  datatype Trace = Trace(funcName: string, bootstrap: bool, time: int, duration: int, error: string, bytes: int, http: Http)

  datatype Call = Call(name: string, count: int, duration: int, maxDur: int, minDur: int, errors: int, size: int,
                       callStatsCount: int, rx: int, tx: int, ttfb: int, maxTtfb: int)

  const ZeroCall := Call("", 0, 0, 0, 0, 0, 0, 0, 0, 0, 0, 0)

  // ---------- one update ----------

  /** The record after one more trace, field by field as `add` assigns them. */
  function Step(got: Call, t: Trace): Call {
    var minDur := if got.minDur <= 0 then t.duration else got.minDur;
    Call(if got.name == "" then t.funcName else got.name,
         got.count + 1,
         got.duration + t.duration,
         if got.maxDur < t.duration then t.duration else got.maxDur,
         if minDur > t.duration then t.duration else minDur,
         got.errors + if t.error != "" then 1 else 0,
         got.size + t.bytes,
         got.callStatsCount + if t.http.Http? then 1 else 0,
         got.rx + Rx(t), got.tx + Tx(t), got.ttfb + Ttfb(t),
         if t.http.Http? && got.maxTtfb < t.http.timeToFirstByte then t.http.timeToFirstByte else got.maxTtfb)
  }

  function Rx(t: Trace): int { if t.http.Http? then t.http.inputBytes else 0 }
  function Tx(t: Trace): int { if t.http.Http? then t.http.outputBytes else 0 }
  function Ttfb(t: Trace): int { if t.http.Http? then t.http.timeToFirstByte else 0 }

  function Fold(ts: seq<Trace>): Call {
    if ts == [] then ZeroCall else Step(Fold(ts[..|ts| - 1]), ts[|ts| - 1])
  }

  /** The traces of one name, in order. */
  function Of(ts: seq<Trace>, name: string): seq<Trace> {
    if ts == [] then []
    else Of(ts[..|ts| - 1], name) + if ts[|ts| - 1].funcName == name then [ts[|ts| - 1]] else []
  }

  ghost predicate Records(calls: map<string, Call>, ts: seq<Trace>) {
    && (forall name :: name in calls <==> Of(ts, name) != [])
    && (forall name :: name in calls ==> calls[name] == Fold(Of(ts, name)))
  }

  lemma RecordsStep(calls: map<string, Call>, ts: seq<Trace>, t: Trace)
    requires Records(calls, ts)
    ensures var got := if t.funcName in calls then calls[t.funcName] else ZeroCall;
            Records(calls[t.funcName := Step(got, t)], ts + [t])
  {
    OneMoreTrace(ts, t);
    var got := if t.funcName in calls then calls[t.funcName] else ZeroCall;
    assert got == Fold(Of(ts, t.funcName));
    RecordsWith(calls, ts, t, Step(got, t));
  }

  lemma RecordsWith(calls: map<string, Call>, ts: seq<Trace>, t: Trace, next: Call)
    requires Records(calls, ts) && next == Fold(Of(ts + [t], t.funcName))
    ensures Records(calls[t.funcName := next], ts + [t])
  {
    var after := calls[t.funcName := next];
    forall name ensures name in after <==> Of(ts + [t], name) != [] {
      OneMoreOf(ts, t, name);
      assert name in calls <==> Of(ts, name) != [];
    }
    forall name | name in after ensures after[name] == Fold(Of(ts + [t], name)) {
      OneMoreOf(ts, t, name);
    }
  }

  lemma OneMoreOf(ts: seq<Trace>, t: Trace, name: string)
    ensures Of(ts + [t], name) == if name == t.funcName then Of(ts, name) + [t] else Of(ts, name)
  {
    assert (ts + [t])[..|ts|] == ts;
  }

  // ---------- the times shown ----------

  /** When the traces ended that are not from the start of the server. */
  function Ends(ts: seq<Trace>): seq<int> {
    if ts == [] then []
    else
      var t := ts[|ts| - 1];
      Ends(ts[..|ts| - 1]) + if t.bootstrap then [] else [t.time + t.duration]
  }

  function FirstNonZero(ends: seq<int>): int {
    if ends == [] then 0 else if ends[0] != 0 then ends[0] else FirstNonZero(ends[1..])
  }

  /** The greatest end, where the zero time stands for none. */
  ghost predicate IsLatest(ends: seq<int>, latest: int) {
    latest >= 0 && (latest == 0 || latest in ends) && forall e :: e in ends ==> e <= latest
  }

  lemma {:induction false} FirstOfLonger(ends: seq<int>, e: int)
    ensures FirstNonZero(ends + [e]) == if FirstNonZero(ends) == 0 then e else FirstNonZero(ends)
  {
    if ends == [] {
      assert [] + [e] == [e] && [e][1..] == [];
    } else {
      assert (ends + [e])[1..] == ends[1..] + [e];
      FirstOfLonger(ends[1..], e);
    }
  }

  lemma OneMoreEnd(ts: seq<Trace>, t: Trace, latest: int)
    ensures Ends(ts + [t]) == if t.bootstrap then Ends(ts) else Ends(ts) + [t.time + t.duration]
    ensures !t.bootstrap ==>
      FirstNonZero(Ends(ts + [t])) == if FirstNonZero(Ends(ts)) == 0 then t.time + t.duration else FirstNonZero(Ends(ts))
    ensures !t.bootstrap && IsLatest(Ends(ts), latest) ==>
      IsLatest(Ends(ts + [t]), if t.time + t.duration > latest then t.time + t.duration else latest)
  {
    assert (ts + [t])[..|ts|] == ts;
    FirstOfLonger(Ends(ts), t.time + t.duration);
  }

  /** The oldest time shown is that of the first trace to arrive, so it is the least one
      exactly when no later trace ended before it. */
  lemma OldestExactly(ts: seq<Trace>)
    requires Ends(ts) != [] && forall e :: e in Ends(ts) ==> e > 0
    ensures FirstNonZero(Ends(ts)) == Ends(ts)[0]
    ensures (forall e :: e in Ends(ts) ==> FirstNonZero(Ends(ts)) <= e) <==> forall i :: 0 < i < |Ends(ts)| ==> Ends(ts)[0] <= Ends(ts)[i]
  {
    var ends := Ends(ts);
    assert forall i :: 0 <= i < |ends| ==> ends[i] in ends;
    if forall i :: 0 < i < |ends| ==> ends[0] <= ends[i] {
      forall e | e in ends ensures ends[0] <= e {
        var i := PlaceOf(ends, e);
      }
    }
  }

  class StatTrace {
    var calls: map<string, Call>
    var oldest: int     // 0 is the zero time
    var latest: int
    ghost var seen: seq<Trace>

    /** The record of every name is the fold over the traces of that name, and the two
        times are those of the traces that count for them. */
    ghost predicate Valid()
      reads this
    {
      Records(calls, seen) && ShowsTimes(seen)
    }

    ghost predicate ShowsTimes(ts: seq<Trace>)
      reads this
    {
      oldest == FirstNonZero(Ends(ts)) && IsLatest(Ends(ts), latest)
    }

    constructor ()
      ensures Valid() && seen == [] && oldest == 0 && latest == 0
    {
      calls, oldest, latest, seen := map[], 0, 0, [];
    }

    /** `add`. */
    method Add(t: Trace)
      requires Valid()
      modifies this
      ensures Valid() && seen == old(seen) + [t]
      ensures latest == if !t.bootstrap && t.time + t.duration > old(latest) then t.time + t.duration else old(latest)
      ensures oldest == if !t.bootstrap && old(oldest) == 0 then t.time + t.duration else old(oldest)
    {
      var id := t.funcName;
      AddTimes(t, seen);
      RecordsStep(calls, seen, t);
      var got := if id in calls then calls[id] else ZeroCall;
      got := UpdateCall(got, t);
      calls := calls[id := got];
      seen := seen + [t];
    }

    /** The first part of `add`: the start of the server does not count for the times. */
    method AddTimes(t: Trace, ghost before: seq<Trace>)
      requires ShowsTimes(before)
      modifies this`oldest, this`latest
      ensures ShowsTimes(before + [t])
      ensures latest == if !t.bootstrap && t.time + t.duration > old(latest) then t.time + t.duration else old(latest)
      ensures oldest == if !t.bootstrap && old(oldest) == 0 then t.time + t.duration else old(oldest)
    {
      OneMoreEnd(before, t, latest);
      if !t.bootstrap {
        var ended := t.time + t.duration;
        if oldest == 0 { oldest := ended; }
        if ended > latest { latest := ended; }
      }
    }

    /** The assignments of `add` to the record of the name. */
    static method UpdateCall(was: Call, t: Trace) returns (got: Call)
      ensures got == Step(was, t)
    {
      got := was;
      if got.name == "" { got := got.(name := t.funcName); }
      if got.maxDur < t.duration { got := got.(maxDur := t.duration); }
      if got.minDur <= 0 { got := got.(minDur := t.duration); }
      if got.minDur > t.duration { got := got.(minDur := t.duration); }
      got := got.(count := got.count + 1, duration := got.duration + t.duration);
      if t.error != "" { got := got.(errors := got.errors + 1); }
      got := got.(size := got.size + t.bytes);
      if t.http.Http? {
        got := got.(callStatsCount := got.callStatsCount + 1, rx := got.rx + t.http.inputBytes,
                    tx := got.tx + t.http.outputBytes, ttfb := got.ttfb + t.http.timeToFirstByte);
        if got.maxTtfb < t.http.timeToFirstByte { got := got.(maxTtfb := t.http.timeToFirstByte); }
      }
    }
  }

  lemma OneMoreTrace(ts: seq<Trace>, t: Trace)
    ensures Of(ts + [t], t.funcName) == Of(ts, t.funcName) + [t]
    ensures Fold(Of(ts, t.funcName) + [t]) == Step(Fold(Of(ts, t.funcName)), t)
  {
    OneMoreOf(ts, t, t.funcName);
    var mine := Of(ts, t.funcName);
    assert (mine + [t])[..|mine|] == mine;
  }

  // ---------- what a record stands for ----------

  function Sum(ts: seq<Trace>, f: Trace -> int): int {
    if ts == [] then 0 else Sum(ts[..|ts| - 1], f) + f(ts[|ts| - 1])
  }

  const Durations: Trace -> int := (t: Trace) => t.duration
  const Errors: Trace -> int := (t: Trace) => if t.error != "" then 1 else 0
  const Sizes: Trace -> int := (t: Trace) => t.bytes
  const WithHttp: Trace -> int := (t: Trace) => if t.http.Http? then 1 else 0
  const InputBytes: Trace -> int := (t: Trace) => if t.http.Http? then t.http.inputBytes else 0
  const OutputBytes: Trace -> int := (t: Trace) => if t.http.Http? then t.http.outputBytes else 0
  const FirstByteTimes: Trace -> int := (t: Trace) => if t.http.Http? then t.http.timeToFirstByte else 0

  /** The least and the greatest value of `f`. */
  ghost predicate IsMin(ts: seq<Trace>, m: int) {
    (exists t :: t in ts && t.duration == m) && forall t :: t in ts ==> m <= t.duration
  }

  ghost predicate IsMax(ts: seq<Trace>, m: int) {
    (exists t :: t in ts && t.duration == m) && forall t :: t in ts ==> t.duration <= m
  }

  /** The greatest of the times to first byte and 0. */
  ghost predicate IsMaxTtfb(ts: seq<Trace>, m: int) {
    && m >= 0 && (m == 0 || exists t :: t in ts && t.http.Http? && t.http.timeToFirstByte == m)
    && forall t :: t in ts && t.http.Http? ==> t.http.timeToFirstByte <= m
  }

  ghost predicate AllPositive(ts: seq<Trace>) {
    forall t :: t in ts ==> t.duration > 0
  }

  /** Counts and sums hold for all traces. */
  lemma {:induction false} FoldSums(ts: seq<Trace>)
    ensures var c := Fold(ts);
            && c.count == |ts|
            && c.duration == Sum(ts, Durations)
            && c.errors == Sum(ts, Errors)
            && c.size == Sum(ts, Sizes)
            && c.callStatsCount == Sum(ts, WithHttp)
            && c.rx == Sum(ts, InputBytes) && c.tx == Sum(ts, OutputBytes) && c.ttfb == Sum(ts, FirstByteTimes)
            && IsMaxTtfb(ts, c.maxTtfb)
  {
    if ts != [] {
      var init, last := ts[..|ts| - 1], ts[|ts| - 1];
      FoldSums(init);
      assert ts == init + [last];
    }
  }

  lemma {:induction false} FoldName(ts: seq<Trace>, name: string)
    requires ts != [] && forall t :: t in ts ==> t.funcName == name
    ensures Fold(ts).name == name
  {
    var init := ts[..|ts| - 1];
    assert ts[|ts| - 1] in ts && forall t :: t in init ==> t in ts;
    if init != [] { FoldName(init, name); }
  }

  /** The greatest duration shown is the greatest one or 0. */
  lemma {:induction false} FoldMax(ts: seq<Trace>)
    requires ts != []
    ensures var m := Fold(ts).maxDur; m >= 0 && (m == 0 || IsMax(ts, m)) && (forall t :: t in ts ==> t.duration <= m)
  {
    var init, last := ts[..|ts| - 1], ts[|ts| - 1];
    assert ts == init + [last] && last in ts;
    if init != [] { FoldMax(init); }
  }

  /** The least duration shown is the least one while all are positive; otherwise it
      has the sign of the last one and is not above it. */
  lemma {:induction false} FoldMin(ts: seq<Trace>)
    requires ts != []
    ensures var m := Fold(ts).minDur; var last := ts[|ts| - 1].duration;
            && (AllPositive(ts) ==> IsMin(ts, m))
            && m <= last && (last <= 0 ==> m == last) && (last > 0 ==> m > 0)
  {
    var init, last := ts[..|ts| - 1], ts[|ts| - 1];
    assert ts == init + [last] && last in ts;
    if init != [] {
      FoldMin(init);
      assert AllPositive(ts) ==> AllPositive(init);
    }
  }

  /** When the extremes are right, exactly: the greatest duration unless all are
      negative; the least one when all durations are positive, or when the last
      trace has it, since a record that shows nothing positive is overwritten. */
  lemma ExtremesExactly(ts: seq<Trace>, least: int, greatest: int)
    requires ts != [] && IsMin(ts, least) && IsMax(ts, greatest)
    ensures Fold(ts).maxDur == greatest <==> greatest >= 0
    ensures Fold(ts).minDur == least <==> AllPositive(ts) || ts[|ts| - 1].duration == least
  {
    FoldMax(ts);
    FoldMin(ts);
    assert ts[|ts| - 1] in ts;
    if !AllPositive(ts) {
      var t :| t in ts && t.duration <= 0;
      assert least <= 0;
    }
  }

  /** After durations 1, 0 and 2 the least one shown is not 0. */
  lemma LeastIsForgotten(t: Trace)
    ensures var ts := [t.(duration := 1), t.(duration := 0), t.(duration := 2)];
            IsMin(ts, 0) && Fold(ts).minDur != 0
  {
    var ts := [t.(duration := 1), t.(duration := 0), t.(duration := 2)];
    assert ts[0] in ts && ts[1] in ts && ts[2] in ts;
    ExtremesExactly(ts, 0, 2);
  }

  // ---------- the order of the traces ----------

  lemma {:induction false} SumWithout(ts: seq<Trace>, k: nat, f: Trace -> int)
    requires k < |ts|
    ensures Sum(ts, f) == Sum(ts[..k] + ts[k + 1..], f) + f(ts[k])
  {
    var last := |ts| - 1;
    var rest := ts[..k] + ts[k + 1..];
    if k < last {
      SumWithout(ts[..last], k, f);
      assert ts[..last][..k] + ts[..last][k + 1..] == rest[..last - 1];
      assert rest[last - 1] == ts[last];
    } else {
      assert rest == ts[..last];
    }
  }

  lemma {:induction false} SumOfPermutation(ts: seq<Trace>, us: seq<Trace>, f: Trace -> int)
    requires multiset(ts) == multiset(us)
    ensures Sum(ts, f) == Sum(us, f)
    decreases |ts|
  {
    if ts == [] {
      assert us == [] by { assert |us| == |multiset(us)| == |multiset(ts)| == 0; }
    } else {
      var last := |ts| - 1;
      assert ts[last] in multiset(us);
      var k := PlaceOf(us, ts[last]);
      WithoutOne(ts, us, k);
      SumWithout(us, k, f);
      SumOfPermutation(ts[..last], us[..k] + us[k + 1..], f);
    }
  }

  lemma WithoutOne(ts: seq<Trace>, us: seq<Trace>, k: nat)
    requires multiset(ts) == multiset(us) && ts != [] && k < |us| && us[k] == ts[|ts| - 1]
    ensures multiset(ts[..|ts| - 1]) == multiset(us[..k] + us[k + 1..])
  {
    assert ts == ts[..|ts| - 1] + [ts[|ts| - 1]];
    assert us == us[..k] + ([us[k]] + us[k + 1..]);
    assert multiset(ts[..|ts| - 1]) == multiset(ts) - multiset{ts[|ts| - 1]};
  }

  lemma SameMembers(ts: seq<Trace>, us: seq<Trace>)
    requires multiset(ts) == multiset(us)
    ensures |ts| == |us| && forall t :: t in ts <==> t in us
  {
    assert |ts| == |multiset(ts)| == |multiset(us)| == |us|;
    forall t ensures t in ts <==> t in us {
      assert t in ts <==> t in multiset(ts);
      assert t in us <==> t in multiset(us);
    }
  }

  /** With positive durations a record does not depend on the order of its traces. */
  lemma FoldOfPermutation(ts: seq<Trace>, us: seq<Trace>, name: string)
    requires multiset(ts) == multiset(us) && ts != [] && AllPositive(ts)
    requires forall t :: t in ts ==> t.funcName == name
    ensures Fold(ts) == Fold(us)
  {
    SameMembers(ts, us);
    FoldSums(ts);
    FoldSums(us);
    SameSums(ts, us);
    FoldName(ts, name);
    FoldName(us, name);
    FoldMax(ts);
    FoldMax(us);
    FoldMin(ts);
    FoldMin(us);
    SameExtremes(ts, us, Fold(ts), Fold(us));
  }

  lemma SameSums(ts: seq<Trace>, us: seq<Trace>)
    requires multiset(ts) == multiset(us)
    ensures Sum(ts, Durations) == Sum(us, Durations) && Sum(ts, Errors) == Sum(us, Errors) && Sum(ts, Sizes) == Sum(us, Sizes)
    ensures Sum(ts, WithHttp) == Sum(us, WithHttp) && Sum(ts, InputBytes) == Sum(us, InputBytes)
    ensures Sum(ts, OutputBytes) == Sum(us, OutputBytes) && Sum(ts, FirstByteTimes) == Sum(us, FirstByteTimes)
  {
    SumOfPermutation(ts, us, Durations);
    SumOfPermutation(ts, us, Errors);
    SumOfPermutation(ts, us, Sizes);
    SumOfPermutation(ts, us, WithHttp);
    SumOfPermutation(ts, us, InputBytes);
    SumOfPermutation(ts, us, OutputBytes);
    SumOfPermutation(ts, us, FirstByteTimes);
  }

  lemma SameExtremes(ts: seq<Trace>, us: seq<Trace>, c: Call, d: Call)
    requires ts != [] && AllPositive(ts) && forall t :: t in ts <==> t in us
    requires IsMin(ts, c.minDur) && IsMin(us, d.minDur)
    requires (c.maxDur == 0 || IsMax(ts, c.maxDur)) && (forall t :: t in ts ==> t.duration <= c.maxDur)
    requires (d.maxDur == 0 || IsMax(us, d.maxDur)) && (forall t :: t in us ==> t.duration <= d.maxDur)
    requires IsMaxTtfb(ts, c.maxTtfb) && IsMaxTtfb(us, d.maxTtfb)
    ensures c.minDur == d.minDur && c.maxDur == d.maxDur && c.maxTtfb == d.maxTtfb
  {
    assert ts[0] in ts && ts[0].duration > 0;
  }

  lemma {:induction false} OfPermutation(ts: seq<Trace>, name: string, t: Trace)
    ensures multiset(Of(ts, name))[t] == if t.funcName == name then multiset(ts)[t] else 0
  {
    if ts != [] {
      OfPermutation(ts[..|ts| - 1], name, t);
      assert ts == ts[..|ts| - 1] + [ts[|ts| - 1]];
    }
  }

  /** Two objects that were given the same traces with positive durations in any two
      orders hold the same records. */
  lemma RecordsIgnoreOrder(a: StatTrace, b: StatTrace)
    requires a.Valid() && b.Valid() && multiset(a.seen) == multiset(b.seen) && AllPositive(a.seen)
    ensures a.calls == b.calls
  {
    forall name ensures name in a.calls <==> name in b.calls
      ensures name in a.calls ==> a.calls[name] == b.calls[name]
    {
      OfSameRecord(a.seen, b.seen, name);
    }
  }

  lemma OfSameRecord(seenA: seq<Trace>, seenB: seq<Trace>, name: string)
    requires multiset(seenA) == multiset(seenB) && AllPositive(seenA)
    ensures var ts, us := Of(seenA, name), Of(seenB, name);
            (ts == [] <==> us == []) && (ts != [] ==> Fold(ts) == Fold(us))
  {
    var ts, us := Of(seenA, name), Of(seenB, name);
    forall t ensures multiset(ts)[t] == multiset(us)[t] {
      OfPermutation(seenA, name, t);
      OfPermutation(seenB, name, t);
    }
    assert multiset(ts) == multiset(us);
    SameMembers(ts, us);
    if ts != [] {
      OfMembers(seenA, name);
      FoldOfPermutation(ts, us, name);
    }
  }

  lemma OfMembers(ts: seq<Trace>, name: string)
    ensures forall t :: t in Of(ts, name) <==> t in ts && t.funcName == name
  {
    forall t ensures t in Of(ts, name) <==> t in ts && t.funcName == name {
      OfPermutation(ts, name, t);
      assert t in Of(ts, name) <==> t in multiset(Of(ts, name));
      assert t in ts <==> t in multiset(ts);
    }
  }

  // ---------- all names together ----------

  function FuncName(t: Trace): string {
    t.funcName
  }

  /** The count shown for a name. */
  function ShownCount(calls: map<string, Call>): string -> int {
    name => if name in calls then calls[name].count else 0
  }

  lemma {:induction false} OfIsCount(ts: seq<Trace>, name: string)
    ensures |Of(ts, name)| == CountBy(ts, FuncName, name)
  {
    if ts != [] { OfIsCount(ts[..|ts| - 1], name); }
  }

  /** The counts over all names add up to the number of traces added. */
  lemma CountsAddUp(s: StatTrace, names: seq<string>)
    requires s.Valid()
    requires AllDifferent(names) && forall n :: n in names <==> n in s.calls
    ensures Sequences.Sum(names, ShownCount(s.calls)) == |s.seen|
  {
    forall t | t in s.seen ensures t.funcName in names {
      OfMembers(s.seen, t.funcName);
      assert t in Of(s.seen, t.funcName);
    }
    forall n | n in names ensures ShownCount(s.calls)(n) == CountOf(s.seen, FuncName)(n) {
      FoldSums(Of(s.seen, n));
      OfIsCount(s.seen, n);
    }
    SameSum(names, ShownCount(s.calls), CountOf(s.seen, FuncName));
    CountsCover(names, s.seen, FuncName);
  }
}
