// The transfer accounter: `Read` adds and then clamps with separate atomic
// operations, so calls may interleave between any two of them.
module Accounting {

  const TwoTo63: int := 0x8000_0000_0000_0000

  /** The value an `int64` holds after `x` was stored in it. */
  function Wrap(x: int): (r: int)
    ensures -TwoTo63 <= r < TwoTo63
    ensures -TwoTo63 <= x < TwoTo63 ==> r == x
  {
    (x + TwoTo63) % (2 * TwoTo63) - TwoTo63
  }

  // ---------- the object, one caller at a time ----------

  datatype AccountStat = AccountStat(total: int, transferred: int)

  class Accounter {
    var current: int
    var total: int
    var finished: bool        // finishOnce has run
    var closes: nat           // how often the channel isFinished was closed

    ghost predicate Valid()
      reads this
    {
      closes == if finished then 1 else 0
    }

    constructor (total: int)
      ensures Valid() && !finished && current == 0 && this.total == total
    {
      this.current, this.total, this.finished, this.closes := 0, total, false, 0;
    }

    method Add(n: int) returns (r: int)
      modifies this`current
      ensures current == r == Wrap(old(current) + n)
    {
      current := Wrap(current + n);
      r := current;
    }

    method Get() returns (r: int)
      ensures r == current
    {
      r := current;
    }

    method Set(n: int)
      modifies this`current
      ensures current == n
    {
      current := n;
    }

    /** One `Read` that nothing interleaves with is the four steps of the
        concurrent model, run to the end. */
    method Read(len: nat) returns (n: nat)
      requires len < TwoTo63
      modifies this`current
      ensures n == len
      ensures current == Run(State(old(current), total, [Call(len, Start)]), [0, 0, 0, 0]).current
    {
      n := len;
      var ignored := Add(n);
      var c, t := current, total;
      if t > 0 && c > t { Set(t); }
      AloneRuns(State(old(current), total, [Call(len, Start)]));
    }

    /** The snapshot is given once; the channel is never closed a second time. */
    method Stat() returns (s: AccountStat)
      requires Valid()
      modifies this`finished, this`closes
      ensures Valid() && finished
      ensures s == if old(finished) then AccountStat(0, 0) else AccountStat(total, current)
    {
      s := AccountStat(0, 0);
      if !finished {
        finished := true;
        closes := closes + 1;
        s := AccountStat(total, current);
      }
    }
  }

  // ---------- any number of calls at once ----------

  /** Where a call of `Read` stands: before `Add`, before `Get`, before loading
      `total` with the value it got, before `Set`, or returned. */
  datatype Phase = Start | Added | Got(n: int) | Clamping(t: int) | Done

  datatype Call = Call(len: nat, at: Phase)

  datatype State = State(current: int, total: int, calls: seq<Call>)

  /** The next atomic step of call `i`; a returned call does nothing. */
  function Step(s: State, i: nat): State {
    if i >= |s.calls| then s
    else
      var c := s.calls[i];
      match c.at
      case Start => s.(current := Wrap(s.current + c.len), calls := s.calls[i := c.(at := Added)])
      case Added => s.(calls := s.calls[i := c.(at := Got(s.current))])
      case Got(n) =>
        s.(calls := s.calls[i := c.(at := if s.total > 0 && n > s.total then Clamping(s.total) else Done)])
      case Clamping(t) => s.(current := t, calls := s.calls[i := c.(at := Done)])
      case Done => s
  }

  /** An interleaving is a sequence of the indices of the calls that move. */
  function Run(s: State, schedule: seq<nat>): State
    decreases |schedule|
  {
    if schedule == [] then s else Run(Step(s, schedule[0]), schedule[1..])
  }

  lemma AloneRuns(s: State)
    requires |s.calls| == 1 && s.calls[0].at == Start
    ensures var sum := Wrap(s.current + s.calls[0].len);
            Run(s, [0, 0, 0, 0]).current == if s.total > 0 && sum > s.total then s.total else sum
  {
    var s1 := Step(s, 0);
    var s2 := Step(s1, 0);
    var s3 := Step(s2, 0);
    var s4 := Step(s3, 0);
    assert [0, 0, 0, 0][1..] == [0, 0, 0] && [0, 0, 0][1..] == [0, 0] && [0, 0][1..] == [0] && [0][1..] == [];
    assert Run(s4, []) == s4;
    assert Run(s3, [0]) == s4;
    assert Run(s2, [0, 0]) == s4;
    assert Run(s1, [0, 0, 0]) == s4;
  }

  function SumOfLengths(calls: seq<Call>): nat {
    if calls == [] then 0 else calls[0].len + SumOfLengths(calls[1..])
  }

  /** The bytes of the calls that are past their `Add`. */
  function SumAdded(calls: seq<Call>): nat {
    if calls == [] then 0
    else (if calls[0].at == Start then 0 else calls[0].len) + SumAdded(calls[1..])
  }

  function Min(a: int, b: int): int {
    if a < b then a else b
  }

  ghost predicate Initial(s: State) {
    s.current == 0 && forall i :: 0 <= i < |s.calls| ==> s.calls[i].at == Start
  }

  ghost predicate AllDone(s: State) {
    forall i :: 0 <= i < |s.calls| ==> s.calls[i].at == Done
  }

  /** Call `c` is still going to store the total. */
  predicate WillClamp(c: Call, total: int) {
    c.at == Added || (c.at.Got? && c.at.n > total) || c.at.Clamping?
  }

  /** What every step keeps. */
  ghost predicate Inv(s: State) {
    && SumOfLengths(s.calls) < TwoTo63
    && 0 <= s.current <= SumAdded(s.calls)
    && (s.total <= 0 ==> s.current == SumAdded(s.calls))
    && (s.total <= 0 ==> forall i :: 0 <= i < |s.calls| ==> !s.calls[i].at.Clamping?)
    // Progress is never reported below what was added, up to the total.
    && (s.total > 0 ==> s.current >= Min(SumAdded(s.calls), s.total))
    // A value above the total is always about to be lowered by some call.
    && (s.total > 0 && s.current > s.total ==> exists i :: 0 <= i < |s.calls| && WillClamp(s.calls[i], s.total))
    // A call that saw too much can only lower the value.
    && (s.total > 0 ==> forall i :: 0 <= i < |s.calls| ==>
          (s.calls[i].at.Got? && s.calls[i].at.n > s.total ==> s.current >= s.total)
          && (s.calls[i].at.Clamping? ==> s.current >= s.total && s.calls[i].at.t == s.total))
  }

  lemma {:induction false} SumsAfterUpdate(calls: seq<Call>, i: nat, at: Phase)
    requires i < |calls| && at != Start
    ensures SumOfLengths(calls[i := calls[i].(at := at)]) == SumOfLengths(calls)
    ensures SumAdded(calls[i := calls[i].(at := at)])
         == SumAdded(calls) + if calls[i].at == Start then calls[i].len else 0
  {
    var after := calls[i := calls[i].(at := at)];
    if i > 0 {
      SumsAfterUpdate(calls[1..], i - 1, at);
      assert after[1..] == calls[1..][i - 1 := calls[i].(at := at)];
    } else {
      assert after[1..] == calls[1..];
    }
  }

  lemma {:induction false} AddedIsPart(calls: seq<Call>)
    ensures SumAdded(calls) <= SumOfLengths(calls)
  {
    if calls != [] { AddedIsPart(calls[1..]); }
  }

  lemma StepKeepsInv(s: State, i: nat)
    requires Inv(s)
    ensures Inv(Step(s, i)) && Step(s, i).total == s.total
    ensures SumOfLengths(Step(s, i).calls) == SumOfLengths(s.calls)
    ensures |Step(s, i).calls| == |s.calls|
  {
    if i < |s.calls| && s.calls[i].at != Done {
      var s' := Step(s, i);
      SumsAfterUpdate(s.calls, i, s'.calls[i].at);
      AddedIsPart(s'.calls);
      AddedIsPart(s.calls);
      if s'.total > 0 && s'.current > s'.total {
        if s.calls[i].at.Got? && s.calls[i].at.n <= s.total {
          var k :| 0 <= k < |s.calls| && WillClamp(s.calls[k], s.total);
          assert s'.calls[k] == s.calls[k];
        } else {
          assert WillClamp(s'.calls[i], s'.total);
        }
      }
    }
  }

  lemma {:induction false} RunKeepsInv(s: State, schedule: seq<nat>)
    requires Inv(s)
    ensures Inv(Run(s, schedule)) && Run(s, schedule).total == s.total
    ensures SumOfLengths(Run(s, schedule).calls) == SumOfLengths(s.calls)
    ensures |Run(s, schedule).calls| == |s.calls|
    decreases |schedule|
  {
    if schedule != [] {
      StepKeepsInv(s, schedule[0]);
      RunKeepsInv(Step(s, schedule[0]), schedule[1..]);
    }
  }

  lemma {:induction false} InitialInv(s: State)
    requires Initial(s) && SumOfLengths(s.calls) < TwoTo63
    ensures Inv(s)
  {
    NothingAdded(s.calls);
  }

  lemma {:induction false} NothingAdded(calls: seq<Call>)
    requires forall i :: 0 <= i < |calls| ==> calls[i].at == Start
    ensures SumAdded(calls) == 0
  {
    if calls != [] { NothingAdded(calls[1..]); }
  }

  lemma {:induction false} EverythingAdded(calls: seq<Call>)
    requires forall i :: 0 <= i < |calls| ==> calls[i].at == Done
    ensures SumAdded(calls) == SumOfLengths(calls)
  {
    if calls != [] { EverythingAdded(calls[1..]); }
  }

  /** Every interleaving of any number of calls ends with the bytes read, cut at
      a positive total, although each call adds, looks and lowers in separate steps. */
  lemma AllReadsAccounted(s: State, schedule: seq<nat>)
    requires Initial(s) && SumOfLengths(s.calls) < TwoTo63
    requires AllDone(Run(s, schedule))
    ensures var sum := SumOfLengths(s.calls);
            Run(s, schedule).current == if s.total > 0 then Min(s.total, sum) else sum
  {
    InitialInv(s);
    RunKeepsInv(s, schedule);
    EverythingAdded(Run(s, schedule).calls);
  }

  /** While calls run, `Get` may show more than the total, but only while some
      call is between its `Add` and its `Set`; it never shows less than what was
      added, up to the total. */
  lemma ProgressDuringRun(s: State, schedule: seq<nat>)
    requires Initial(s) && SumOfLengths(s.calls) < TwoTo63 && s.total > 0
    ensures var now := Run(s, schedule);
            && now.current >= Min(SumAdded(now.calls), s.total)
            && now.current <= SumAdded(now.calls)
            && (now.current > s.total ==> exists i :: 0 <= i < |now.calls| && WillClamp(now.calls[i], s.total))
  {
    InitialInv(s);
    RunKeepsInv(s, schedule);
  }

  /** Letting every call from `i` on add before any of them looks. */
  lemma {:induction false} AddsFirst(s: State, i: nat) returns (schedule: seq<nat>)
    requires i <= |s.calls| && forall j :: i <= j < |s.calls| ==> s.calls[j].at == Start
    requires 0 <= s.current && s.current + SumOfLengths(s.calls[i..]) < TwoTo63
    ensures Run(s, schedule).current == s.current + SumOfLengths(s.calls[i..])
    decreases |s.calls| - i
  {
    if i == |s.calls| {
      schedule := [];
    } else {
      assert s.calls[i..][0] == s.calls[i] && s.calls[i..][1..] == s.calls[i + 1..];
      assert Step(s, i).calls[i + 1..] == s.calls[i + 1..];
      var rest := AddsFirst(Step(s, i), i + 1);
      schedule := [i] + rest;
      assert schedule[1..] == rest;
    }
  }

  /** Some interleaving shows more than the total at some moment if and only if the
      calls together read more than the total. */
  lemma OvershootExactly(s: State)
    requires Initial(s) && SumOfLengths(s.calls) < TwoTo63 && s.total > 0
    ensures (exists schedule :: Run(s, schedule).current > s.total) <==> SumOfLengths(s.calls) > s.total
  {
    if SumOfLengths(s.calls) > s.total {
      assert s.calls[0..] == s.calls;
      var schedule := AddsFirst(s, 0);
    } else {
      InitialInv(s);
      forall schedule: seq<nat> ensures Run(s, schedule).current <= s.total {
        RunKeepsInv(s, schedule);
        AddedIsPart(Run(s, schedule).calls);
      }
    }
  }

  /** The overshoot does occur: one call of 3 bytes under a total of 2. */
  lemma OvershootHappens()
    ensures Run(State(0, 2, [Call(3, Start)]), [0]).current > 2
  {
    var s := State(0, 2, [Call(3, Start)]);
    assert [0][1..] == [];
    assert Run(Step(s, 0), []) == Step(s, 0);
  }

  /** Steps that call `c` still has to take at most. */
  function StepsLeft(c: Call): nat {
    match c.at
    case Start => 4
    case Added => 3
    case Got(_) => 2
    case Clamping(_) => 1
    case Done => 0
  }

  function TotalStepsLeft(calls: seq<Call>): nat {
    if calls == [] then 0 else StepsLeft(calls[0]) + TotalStepsLeft(calls[1..])
  }

  lemma {:induction false} StepsLeftAfterUpdate(calls: seq<Call>, i: nat, c: Call)
    requires i < |calls| && StepsLeft(c) < StepsLeft(calls[i])
    ensures TotalStepsLeft(calls[i := c]) < TotalStepsLeft(calls)
  {
    var after := calls[i := c];
    if i > 0 {
      StepsLeftAfterUpdate(calls[1..], i - 1, c);
      assert after[1..] == calls[1..][i - 1 := c];
    } else {
      assert after[1..] == calls[1..];
    }
  }

  /** No call waits for another: each step of an unfinished call is progress, so
      every run can be continued to its end. */
  lemma {:induction false} EveryRunCanFinish(s: State) returns (schedule: seq<nat>)
    ensures AllDone(Run(s, schedule))
    ensures |schedule| <= TotalStepsLeft(s.calls)
    decreases TotalStepsLeft(s.calls)
  {
    if i :| 0 <= i < |s.calls| && s.calls[i].at != Done {
      StepsLeftAfterUpdate(s.calls, i, Step(s, i).calls[i]);
      var rest := EveryRunCanFinish(Step(s, i));
      schedule := [i] + rest;
      assert schedule[1..] == rest;
    } else {
      schedule := [];
    }
  }
}
