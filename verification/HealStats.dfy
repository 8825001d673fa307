// The running statistics of a heal, and what keeps the progress display in range.
module HealStats {
  import opened Sequences

  datatype Col = Grey | Red | Yellow | Green

  datatype ItemType = Metadata | Bucket | BucketMetadata | Object | OtherType

  datatype DriveState = DriveOk | DriveMissing | DriveOther

  /** One heal result; the online counts are those that the result itself reports. */
  datatype Item = Item(kind: ItemType, objectSize: int, parityBlocks: int, dataBlocks: int, diskCount: int, setCount: int,
                       afterDrives: seq<DriveState>, onlineBefore: int, onlineAfter: int)

  datatype Colour = NoColour | HasColour(col: Col)

  // ---------- colours ----------

  const HColOrder: seq<Col> := [Red, Yellow, Green]

  /** The thresholds of a parity; -1 marks a colour that is never given. */
  function HColTable(parity: int): (row: seq<int>)
    requires 1 <= parity <= 8
    ensures |row| == 3 && row[2] == parity
  {
    [[0, -1, 1], [0, 1, 2], [1, 2, 3], [1, 2, 4], [1, 3, 5], [2, 4, 6], [2, 4, 7], [2, 5, 8]][parity - 1]
  }

  predicate KnownParity(surplus: int, parity: int) {
    1 <= parity <= 8 && surplus <= parity
  }

  /** The first colour whose threshold is not exceeded. */
  function ColourOf(surplus: int, parity: int): (c: Colour)
    ensures c.HasColour? <==> KnownParity(surplus, parity)
    ensures c == HasColour(Grey) <==> KnownParity(surplus, parity) && surplus < 0
  {
    if !KnownParity(surplus, parity) then NoColour
    else if surplus < 0 then HasColour(Grey)
    else
      var row := HColTable(parity);
      if row[0] != -1 && surplus <= row[0] then HasColour(Red)
      else if row[1] != -1 && surplus <= row[1] then HasColour(Yellow)
      else HasColour(Green)
  }

  method GetHColCode(surplusShards: int, parityShards: int) returns (c: Colour)
    ensures c == ColourOf(surplusShards, parityShards)
  {
    if parityShards < 1 || parityShards > 8 || surplusShards > parityShards { return NoColour; }
    if surplusShards < 0 { return HasColour(Grey); }
    var colRow := HColTable(parityShards);
    c := NoColour;
    for index := 0 to |colRow|
      invariant c == NoColour
      invariant forall k :: 0 <= k < index ==> colRow[k] == -1 || surplusShards > colRow[k]
    {
      if colRow[index] != -1 && surplusShards <= colRow[index] {
        c := HasColour(HColOrder[index]);
        break;
      }
    }
  }

  function Rank(c: Col): nat {
    match c case Grey => 0 case Red => 1 case Yellow => 2 case Green => 3
  }

  /** More surplus shards never give a worse colour. */
  lemma ColoursAscend(s: int, t: int, parity: int)
    requires KnownParity(s, parity) && KnownParity(t, parity) && s <= t
    ensures Rank(ColourOf(s, parity).col) <= Rank(ColourOf(t, parity).col)
  {
    assert parity == 1 || parity == 2 || parity == 3 || parity == 4 || parity == 5 || parity == 6 || parity == 7 || parity == 8;
  }

  /** Go's division. */
  function Quot(a: int, b: int): int
    requires b != 0
  {
    if a >= 0 then a / b else -((-a) / b)
  }

  function ReplicatedColour(numAvail: int, diskCount: int, setCount: int): Colour {
    if setCount > 0 then
      var disks := Quot(diskCount, setCount);
      var quorum := Quot(disks, 2) + 1;
      ColourOf(Quot(numAvail, setCount) - quorum, disks - quorum)
    else
      var quorum := Quot(diskCount, 2) + 1;
      ColourOf(numAvail - quorum, diskCount - quorum)
  }

  /** Red for an unavailable drive, yellow for a missing one, green without either. */
  method BucketColour(drives: seq<DriveState>) returns (c: Col)
    ensures c == BucketColourOf(drives)
  {
    if |drives| == 0 { return Grey; }
    var missing, unavailable := 0, 0;
    for i := 0 to |drives|
      invariant missing >= 0 && unavailable >= 0
      invariant missing > 0 <==> DriveMissing in drives[..i]
      invariant unavailable > 0 <==> DriveOther in drives[..i]
    {
      assert drives[..i + 1] == drives[..i] + [drives[i]];
      match drives[i] {
        case DriveOk =>
        case DriveMissing => missing := missing + 1;
        case DriveOther => unavailable := unavailable + 1;
      }
    }
    assert drives[..|drives|] == drives;
    if unavailable > 0 { return Red; }
    if missing > 0 { return Yellow; }
    return Green;
  }

  function BucketColourOf(drives: seq<DriveState>): Col {
    if drives == [] then Grey
    else if DriveOther in drives then Red
    else if DriveMissing in drives then Yellow
    else Green
  }

  /** The colour after healing, or none when the counts give an error; the colour
      before healing is computed first and its error counts too. */
  function AfterColour(i: Item): Colour {
    match i.kind
    case Bucket => HasColour(BucketColourOf(i.afterDrives))
    case Object => ObjectColour(i)
    case OtherType => ObjectColour(i)
    case _ =>
      if ReplicatedColour(i.onlineBefore, i.diskCount, i.setCount).NoColour? then NoColour
      else ReplicatedColour(i.onlineAfter, i.diskCount, i.setCount)
  }

  function ObjectColour(i: Item): Colour {
    if ColourOf(i.onlineBefore - i.dataBlocks, i.parityBlocks).NoColour? then NoColour
    else ColourOf(i.onlineAfter - i.dataBlocks, i.parityBlocks)
  }

  /** The colour after healing, by the fields of the item: that of the surplus over the
      data blocks, or over the quorum of a replicated file, when the counts before and
      after healing are both in the table; for a bucket that of its drives. */
  lemma AfterColourExactly(i: Item)
    ensures i.kind in [Object, OtherType] ==>
      AfterColour(i) == if KnownParity(i.onlineBefore - i.dataBlocks, i.parityBlocks) && KnownParity(i.onlineAfter - i.dataBlocks, i.parityBlocks)
                        then ColourOf(i.onlineAfter - i.dataBlocks, i.parityBlocks) else NoColour
    ensures i.kind in [Metadata, BucketMetadata] && i.setCount > 0 && i.diskCount >= 0 && i.onlineBefore >= 0 && i.onlineAfter >= 0 ==>
      var disks := i.diskCount / i.setCount; var quorum := disks / 2 + 1;
      AfterColour(i) == if KnownParity(i.onlineBefore / i.setCount - quorum, disks - quorum)
                        then ColourOf(i.onlineAfter / i.setCount - quorum, disks - quorum) else NoColour
    ensures i.kind in [Metadata, BucketMetadata] && i.setCount <= 0 && i.diskCount >= 0 ==>
      var quorum := i.diskCount / 2 + 1;
      AfterColour(i) == if KnownParity(i.onlineBefore - quorum, i.diskCount - quorum)
                        then ColourOf(i.onlineAfter - quorum, i.diskCount - quorum) else NoColour
    ensures i.kind == Bucket ==> AfterColour(i).HasColour?
    ensures i.kind == Bucket ==> (AfterColour(i).col == Grey <==> i.afterDrives == [])
    ensures i.kind == Bucket ==> (AfterColour(i).col == Red <==> DriveOther in i.afterDrives)
    ensures i.kind == Bucket ==> (AfterColour(i).col == Yellow <==> DriveMissing in i.afterDrives && DriveOther !in i.afterDrives)
  {
  }

  /** The colour of a surplus is that of the first threshold it does not exceed. */
  lemma ThresholdsExactly(surplus: int, parity: int, k: nat)
    requires KnownParity(surplus, parity) && surplus >= 0 && k < 3
    ensures var row := HColTable(parity);
            ColourOf(surplus, parity) == HasColour([Red, Yellow, Green][k])
            <==> row[k] != -1 && surplus <= row[k] && forall j :: 0 <= j < k ==> row[j] == -1 || surplus > row[j]
  {
    assert k == 0 || k == 1 || k == 2;
    assert parity == 1 || parity == 2 || parity == 3 || parity == 4 || parity == 5 || parity == 6 || parity == 7 || parity == 8;
  }

  // ---------- counting ----------

  function Count(items: seq<Item>, p: Item -> bool): nat {
    if items == [] then 0 else Count(items[..|items| - 1], p) + if p(items[|items| - 1]) then 1 else 0
  }

  lemma {:induction false} CountAtMost(items: seq<Item>, p: Item -> bool, q: Item -> bool)
    requires forall i :: p(i) ==> q(i)
    ensures Count(items, p) <= Count(items, q) <= |items|
  {
    if items != [] { CountAtMost(items[..|items| - 1], p, q); }
  }

  lemma CountsAppend(items: seq<Item>, i: Item)
    ensures forall p :: Count(items + [i], p) == Count(items, p) + if p(i) then 1 else 0
    ensures Bytes(items + [i]) == Bytes(items) + if i.kind == Object && i.objectSize >= 0 then i.objectSize else 0
  {
    assert (items + [i])[..|items|] == items;
  }

  lemma TotalsAppend(items: seq<Item>, i: Item)
    ensures Count(items + [i], IsObject) == Count(items, IsObject) + if IsObject(i) then 1 else 0
    ensures Count(items + [i], IsHealed) == Count(items, IsHealed) + if IsHealed(i) then 1 else 0
    ensures Count(items + [i], IsHealedObject) == Count(items, IsHealedObject) + if IsHealedObject(i) then 1 else 0
    ensures Bytes(items + [i]) == Bytes(items) + if i.kind == Object && i.objectSize >= 0 then i.objectSize else 0
  {
    CountsAppend(items, i);
  }

  function Bytes(items: seq<Item>): nat {
    if items == [] then 0
    else
      var i := items[|items| - 1];
      Bytes(items[..|items| - 1]) + if i.kind == Object && i.objectSize >= 0 then i.objectSize else 0
  }

  function Get<K>(m: map<K, int>, k: K): int {
    if k in m then m[k] else 0
  }

  const AnyItem: Item -> bool := (i: Item) => true
  const IsObject: Item -> bool := (i: Item) => i.kind == Object
  const IsHealed: Item -> bool := (i: Item) => i.onlineAfter > i.onlineBefore
  const IsHealedObject: Item -> bool := (i: Item) => i.kind == Object && i.onlineAfter > i.onlineBefore
  const IsError: Item -> bool := (i: Item) => AfterColour(i).NoColour?

  function HasCol(c: Col): Item -> bool {
    (i: Item) => AfterColour(i) == HasColour(c)
  }

  function HasOnline(n: int): Item -> bool {
    (i: Item) => i.onlineAfter == n
  }

  ghost predicate CountsOnline(m: map<int, int>, items: seq<Item>) {
    forall n :: Get(m, n) == Count(items, HasOnline(n))
  }

  ghost predicate CountsColours(m: map<Col, int>, items: seq<Item>) {
    forall c :: Get(m, c) == Count(items, HasCol(c))
  }

  lemma CountOneMoreOnline(m: map<int, int>, items: seq<Item>, i: Item)
    requires CountsOnline(m, items)
    ensures CountsOnline(m[i.onlineAfter := Get(m, i.onlineAfter) + 1], items + [i])
  {
    CountsAppend(items, i);
  }

  lemma CountOneMoreColour(m: map<Col, int>, items: seq<Item>, i: Item)
    requires CountsColours(m, items)
    ensures AfterColour(i).NoColour? ==> CountsColours(m, items + [i])
    ensures AfterColour(i).HasColour? ==> CountsColours(m[AfterColour(i).col := Get(m, AfterColour(i).col) + 1], items + [i])
  {
    CountsAppend(items, i);
  }

  // ---------- the object ----------

  class UiData {
    var bytesScanned: int
    var objectsScanned: int
    var itemsScanned: int
    var objectsHealed: int
    var itemsHealed: int
    var objectsByOnlineDrives: map<int, int>
    var healthCols: map<Col, int>
    ghost var seen: seq<Item>

    /** Every counter is the count of the items seen so far that it stands for. */
    ghost predicate Valid()
      reads this
    {
      && Totals(seen)
      && CountsOnline(objectsByOnlineDrives, seen)
      && CountsColours(healthCols, seen)
    }

    constructor ()
      ensures Valid() && seen == []
    {
      bytesScanned, objectsScanned, itemsScanned, objectsHealed, itemsHealed := 0, 0, 0, 0, 0;
      objectsByOnlineDrives, healthCols := map[], map[];
      seen := [];
    }

    /** The totals stand for these items. */
    ghost predicate Totals(items: seq<Item>)
      reads this
    {
      && bytesScanned == Bytes(items)
      && itemsScanned == |items|
      && objectsScanned == Count(items, IsObject)
      && itemsHealed == Count(items, IsHealed)
      && objectsHealed == Count(items, IsHealedObject)
    }

    /** `updateStats`; false is its error. */
    method UpdateStats(i: Item) returns (ok: bool)
      requires Valid()
      modifies this
      ensures Valid() && seen == old(seen) + [i]
      ensures ok <==> !IsError(i)
      ensures itemsScanned == old(itemsScanned) + 1
      ensures objectsScanned == old(objectsScanned) + if i.kind == Object then 1 else 0
      ensures bytesScanned == old(bytesScanned) + if i.kind == Object && i.objectSize >= 0 then i.objectSize else 0
      ensures itemsHealed == old(itemsHealed) + if i.onlineAfter > i.onlineBefore then 1 else 0
      ensures objectsHealed == old(objectsHealed) + if i.kind == Object && i.onlineAfter > i.onlineBefore then 1 else 0
    {
      AddTotals(i, seen);
      CountOneMoreOnline(objectsByOnlineDrives, seen, i);
      objectsByOnlineDrives := objectsByOnlineDrives[i.onlineAfter := Get(objectsByOnlineDrives, i.onlineAfter) + 1];
      ok := AddColour(i, seen);
      seen := seen + [i];
    }

    /** The first part: what was scanned and what was healed. */
    method AddTotals(i: Item, ghost before: seq<Item>)
      requires Totals(before)
      modifies this`bytesScanned, this`objectsScanned, this`itemsScanned, this`objectsHealed, this`itemsHealed
      ensures Totals(before + [i])
      ensures itemsScanned == old(itemsScanned) + 1
      ensures objectsScanned == old(objectsScanned) + if i.kind == Object then 1 else 0
      ensures bytesScanned == old(bytesScanned) + if i.kind == Object && i.objectSize >= 0 then i.objectSize else 0
      ensures itemsHealed == old(itemsHealed) + if i.onlineAfter > i.onlineBefore then 1 else 0
      ensures objectsHealed == old(objectsHealed) + if i.kind == Object && i.onlineAfter > i.onlineBefore then 1 else 0
    {
      TotalsAppend(before, i);
      if i.kind == Object {
        if i.objectSize >= 0 { bytesScanned := bytesScanned + i.objectSize; }
        objectsScanned := objectsScanned + 1;
      }
      itemsScanned := itemsScanned + 1;
      if i.onlineAfter > i.onlineBefore {
        if i.kind == Object { objectsHealed := objectsHealed + 1; }
        itemsHealed := itemsHealed + 1;
      }
    }

    /** The end of `updateStats`: the colour after healing is counted, or its error returned. */
    method AddColour(i: Item, ghost before: seq<Item>) returns (ok: bool)
      requires CountsColours(healthCols, before)
      modifies this`healthCols
      ensures CountsColours(healthCols, before + [i])
      ensures ok <==> !IsError(i)
    {
      CountOneMoreColour(healthCols, before, i);
      var afterCol := AfterColour(i);
      if afterCol.NoColour? { return false; }
      healthCols := healthCols[afterCol.col := Get(healthCols, afterCol.col) + 1];
      return true;
    }

    /** The share of each colour, and its bar: the filled part, rounded up, and the
        padding, 12 characters in all. */
    method GetPercentsNBars() returns (percents: map<Col, real>, bars: map<Col, string>)
      requires Valid()
      ensures forall c: Col :: c in bars && c in percents
      ensures forall c :: c in bars ==> IsBar(bars[c], Count(seen, HasCol(c)), |seen|)
      ensures forall c :: c in percents ==> percents[c] == Percent(Count(seen, HasCol(c)), |seen|)
    {
      percents, bars := map[], map[];
      var cols := [Grey, Red, Yellow, Green];
      for k := 0 to |cols|
        invariant forall c :: c in cols[..k] ==> c in bars && c in percents
        invariant forall c :: c in bars ==> IsBar(bars[c], Count(seen, HasCol(c)), |seen|)
        invariant forall c :: c in percents ==> percents[c] == Percent(Count(seen, HasCol(c)), |seen|)
      {
        var c := cols[k];
        CountAtMost(seen, HasCol(c), AnyItem);
        var bar := OneBar(Get(healthCols, c), itemsScanned);
        percents := percents[c := Percent(Get(healthCols, c), itemsScanned)];
        bars := bars[c := bar];
        assert cols[..k + 1] == cols[..k] + [c];
      }
      forall c: Col ensures c in bars && c in percents {
        assert c == cols[0] || c == cols[1] || c == cols[2] || c == cols[3];
        assert c in cols[..|cols|];
      }
    }
  }

  function Percent(v: nat, sum: nat): (p: real)
    ensures if sum == 0 then p == 0.0 else p * sum as real == v as real * 100.0
  {
    if sum == 0 then 0.0 else v as real * 100.0 / sum as real
  }

  const BarLen: nat := 12

  /** A bar of 12 characters whose filled part is the share in twelfths, rounded up: empty
      exactly without items of the colour, and full exactly above eleven twelfths. */
  ghost predicate IsBar(bar: string, v: nat, sum: nat) {
    && |bar| == 12
    && exists filled: nat :: filled <= 12 && IsFilled(bar, filled)
                             && (filled == 0 <==> v == 0)
                             && (sum > 0 ==> 12 * v <= filled * sum < 12 * v + sum)
                             && (sum > 0 ==> (filled == 12 <==> 12 * v > 11 * sum))
  }

  ghost predicate IsFilled(bar: string, filled: nat) {
    filled <= |bar| && forall k :: 0 <= k < |bar| ==> bar[k] == if k < filled then '#' else ' '
  }

  /** One bar; the repeat counts are never negative because no colour counts more than the items. */
  method OneBar(v: nat, sum: nat) returns (bar: string)
    requires v <= sum
    ensures IsBar(bar, v, sum)
  {
    var filledLen := 0;
    if sum != 0 { filledLen := (BarLen * v + sum - 1) / sum; }
    FilledInRange(v, sum);
    assert filledLen == Filled(v, sum);
    bar := Repeat('#', filledLen) + Repeat(' ', BarLen - filledLen);
    assert IsFilled(bar, filledLen);
  }

  function Repeat(c: char, n: nat): (s: string)
    ensures |s| == n
  {
    seq(n, i => c)
  }

  /** The ceiling of 12 v / sum; nothing when there are no items. */
  function Filled(v: nat, sum: nat): int {
    if sum == 0 then 0 else (BarLen * v + sum - 1) / sum
  }

  lemma FilledInRange(v: nat, sum: nat)
    requires v <= sum
    ensures 0 <= Filled(v, sum) <= 12
    ensures Filled(v, sum) == 0 <==> v == 0
    ensures sum > 0 ==> (Filled(v, sum) == 12 <==> 12 * v > 11 * sum)
    ensures sum > 0 ==> 12 * v <= Filled(v, sum) * sum < 12 * v + sum
  {
    if sum > 0 {
      var a := 12 * v + sum - 1;
      var f := a / sum;
      Floor(a, sum);
      Scaled(f, sum);
    }
  }

  /** Multiples of a positive number, against the few that matter here. */
  lemma Scaled(f: int, sum: nat)
    requires sum > 0
    ensures f >= 13 ==> f * sum >= 13 * sum
    ensures f >= 12 ==> f * sum >= 12 * sum
    ensures f <= 11 ==> (f + 1) * sum <= 12 * sum
    ensures f >= 1 ==> f * sum >= sum
    ensures f <= 0 ==> (f + 1) * sum <= sum
  {
    if f >= 13 { NonNegative(f - 13, sum); }
    if f >= 12 { NonNegative(f - 12, sum); }
    if f <= 11 { NonNegative(11 - f, sum); }
    if f >= 1 { NonNegative(f - 1, sum); }
    if f <= 0 { NonNegative(-f, sum); }
  }

  lemma NonNegative(a: int, b: nat)
    requires a >= 0
    ensures a * b >= 0
  {
  }

  // ---------- what the counters add up to ----------

  /** Every item has one of four colours or an error: the colours and errors sum to the items. */
  lemma {:induction false} ColoursAndErrorsSum(items: seq<Item>)
    ensures Count(items, HasCol(Grey)) + Count(items, HasCol(Red)) + Count(items, HasCol(Yellow)) + Count(items, HasCol(Green))
          + Count(items, IsError) == |items|
  {
    if items != [] { ColoursAndErrorsSum(items[..|items| - 1]); }
  }

  lemma QuotientsAdd(x: real, y: real, s: real)
    requires s > 0.0
    ensures x / s + y / s == (x + y) / s
  {
    assert (x / s + y / s) * s == x + y;
  }

  lemma PercentOfSum(v: nat, w: nat, sum: nat)
    ensures Percent(v, sum) + Percent(w, sum) == Percent(v + w, sum)
  {
    if sum > 0 { QuotientsAdd(v as real * 100.0, w as real * 100.0, sum as real); }
  }

  lemma PercentOfAll(n: nat)
    requires n > 0
    ensures Percent(n, n) == 100.0
  {
  }

  /** The shares of the colours and of the errors make a hundred percent. */
  lemma PercentsAddUp(items: seq<Item>)
    requires items != []
    ensures Percent(Count(items, HasCol(Grey)), |items|) + Percent(Count(items, HasCol(Red)), |items|)
          + Percent(Count(items, HasCol(Yellow)), |items|) + Percent(Count(items, HasCol(Green)), |items|)
          == 100.0 - Percent(Count(items, IsError), |items|)
  {
    ColoursAndErrorsSum(items);
    FivePercents(Count(items, HasCol(Grey)), Count(items, HasCol(Red)), Count(items, HasCol(Yellow)), Count(items, HasCol(Green)),
      Count(items, IsError), |items|);
  }

  lemma FivePercents(a: nat, b: nat, c: nat, d: nat, e: nat, n: nat)
    requires n > 0 && a + b + c + d + e == n
    ensures Percent(a, n) + Percent(b, n) + Percent(c, n) + Percent(d, n) == 100.0 - Percent(e, n)
  {
    var p := (k: nat) => Percent(k, n);
    assert p(a) + p(b) == p(a + b) by { PercentOfSum(a, b, n); }
    assert p(a + b) + p(c) == p(a + b + c) by { PercentOfSum(a + b, c, n); }
    assert p(a + b + c) + p(d) == p(a + b + c + d) by { PercentOfSum(a + b + c, d, n); }
    assert p(a + b + c + d) + p(e) == p(n) == 100.0 by { PercentOfSum(a + b + c + d, e, n); PercentOfAll(n); }
  }

  function OnlineAfter(i: Item): int {
    i.onlineAfter
  }

  function CounterOf(m: map<int, int>): int -> int {
    n => Get(m, n)
  }

  lemma {:induction false} OnlineIsCount(items: seq<Item>, n: int)
    ensures Count(items, HasOnline(n)) == CountBy(items, OnlineAfter, n)
  {
    if items != [] { OnlineIsCount(items[..|items| - 1], n); }
  }

  lemma {:induction false} PositiveCount(items: seq<Item>, n: int, i: Item)
    requires i in items && i.onlineAfter == n
    ensures Count(items, HasOnline(n)) > 0
  {
    var init, last := items[..|items| - 1], items[|items| - 1];
    assert items == init + [last];
    if i in init { PositiveCount(init, n, i); }
  }

  /** After any sequence of updates the histogram of online drives, over all its
      keys, sums to the items scanned; so do colours and errors; and no more is
      healed than was scanned. */
  lemma CountersAddUp(ui: UiData, keys: seq<int>)
    requires ui.Valid()
    requires AllDifferent(keys) && forall n :: n in ui.objectsByOnlineDrives ==> n in keys
    ensures Sum(keys, CounterOf(ui.objectsByOnlineDrives)) == ui.itemsScanned
    ensures Get(ui.healthCols, Grey) + Get(ui.healthCols, Red) + Get(ui.healthCols, Yellow) + Get(ui.healthCols, Green)
          + Count(ui.seen, IsError) == ui.itemsScanned
    ensures 0 <= ui.objectsHealed <= ui.objectsScanned <= ui.itemsScanned
    ensures ui.objectsHealed <= ui.itemsHealed <= ui.itemsScanned
  {
    forall i | i in ui.seen ensures i.onlineAfter in keys {
      PositiveCount(ui.seen, i.onlineAfter, i);
      assert Get(ui.objectsByOnlineDrives, i.onlineAfter) > 0;
    }
    forall n | n in keys ensures CounterOf(ui.objectsByOnlineDrives)(n) == CountOf(ui.seen, OnlineAfter)(n) { OnlineIsCount(ui.seen, n); }
    SameSum(keys, CounterOf(ui.objectsByOnlineDrives), CountOf(ui.seen, OnlineAfter));
    CountsCover(keys, ui.seen, OnlineAfter);
    ColoursAndErrorsSum(ui.seen);
    CountAtMost(ui.seen, IsHealedObject, IsObject);
    CountAtMost(ui.seen, IsHealedObject, IsHealed);
    CountAtMost(ui.seen, IsObject, AnyItem);
    CountAtMost(ui.seen, IsHealed, AnyItem);
  }

  // ---------- the size shown ----------

  const Magnitudes: seq<int> := [0x400, 0x10_0000, 0x4000_0000, 0x100_0000_0000, 0x4_0000_0000_0000, 0x1000_0000_0000_0000]

  datatype Size = TooLarge | Size(numUnits: int, unit: nat)

  /** The size of `getProgress` in exact arithmetic: `TooLarge` stands for the index
      that runs past the table.  It does so exactly above 2^60 bytes; up to there the
      number shown is at most 1024, and at least 1 unless fewer than 1 byte was scanned. */
  method ShownSize(bytesScanned: nat) returns (s: Size)
    ensures s == TooLarge <==> bytesScanned > 0x1000_0000_0000_0000
    ensures s != TooLarge ==> s.unit < 6 && 0 <= s.numUnits <= 1024 && (s.numUnits == 0 <==> bytesScanned == 0)
    ensures s != TooLarge ==> s.numUnits * Magnitudes[s.unit] <= bytesScanned * 1024 < (s.numUnits + 1) * Magnitudes[s.unit]
  {
    var i := 0;
    while i < |Magnitudes|
      invariant 0 <= i <= |Magnitudes|
      invariant forall k :: 0 <= k < i ==> bytesScanned > Magnitudes[k]
    {
      if bytesScanned <= Magnitudes[i] { break; }
      i := i + 1;
    }
    if i == |Magnitudes| { return TooLarge; }
    var m := Magnitudes[i];
    assert i > 0 ==> m == 1024 * Magnitudes[i - 1];
    var n := bytesScanned * 1024 / m;
    Floor(bytesScanned * 1024, m);
    s := Size(n, i);
  }

  lemma Floor(a: nat, m: nat)
    requires m > 0
    ensures a / m * m <= a < (a / m + 1) * m
    ensures a <= 1024 * m ==> a / m <= 1024
    ensures a >= m ==> a / m >= 1
  {
  }
}
