/** The joint calendar-day bootstrap of `scripts/pooled_universe_study.py`: a sleeve's
    real trades indexed by source day, and the repeat/cumsum gather that copies whole
    days of them into a simulated calendar. */
module DayBootstrap {
  import opened Sequences

  const NS_PER_DAY: int := 86_400_000_000_000

  /** Entry and exit time of one real trade, in nanoseconds. */
  datatype RealTrade = RealTrade(entry: int, exit: int)

  datatype Sleeve = Sleeve(
    entryDay: seq<int>, intraday: seq<int>, hold: seq<int>,
    dayStart: seq<int>, dayCount: seq<int>)

  /** One column of simulated trades: source index, entry and exit time of each. */
  datatype Column = Column(idx: seq<int>, entry: seq<int>, exit: seq<int>)

  /** Floor division by a positive divisor, rounded up. */
  function CeilDiv(x: int, d: int): int
    requires d > 0
  {
    -((-x) / d)
  }

  // ---------------------------------------------------------------- the day index

  function CountOf(day: seq<int>, d: int): nat {
    if day == [] then 0 else (if day[0] == d then 1 else 0) + CountOf(day[1..], d)
  }

  function CountBelow(day: seq<int>, d: int): nat {
    if day == [] then 0 else (if day[0] < d then 1 else 0) + CountBelow(day[1..], d)
  }

  function BinCount(day: seq<int>, nDays: nat): (r: seq<int>)
    ensures |r| == nDays
  {
    seq(nDays, d requires 0 <= d < nDays => CountOf(day, d))
  }

  /** `concatenate([[0], cumsum(count)[:-1]])`. */
  function Starts(count: seq<int>): seq<int>
    requires count != []
  {
    [0] + CumSum(count)[..|count| - 1]
  }

  predicate ByEntryThenExit(a: RealTrade, b: RealTrade) {
    a.entry < b.entry || (a.entry == b.entry && a.exit <= b.exit)
  }

  /** Every trade was entered inside the source window. */
  predicate InWindow(trades: seq<RealTrade>, srcStart: int, srcEnd: int) {
    forall t :: t in trades ==> srcStart <= t.entry < srcEnd
  }

  function BuildSleeve(trades: seq<RealTrade>, srcStart: int, srcEnd: int): Sleeve
    requires srcStart < srcEnd
  {
    var sorted := SortBy(trades, ByEntryThenExit);
    var n := |sorted|;
    var rel := seq(n, k requires 0 <= k < n => sorted[k].entry - srcStart);
    var day := seq(n, k requires 0 <= k < n => rel[k] / NS_PER_DAY);
    var nDays := CeilDiv(srcEnd - srcStart, NS_PER_DAY);
    var count := BinCount(day, nDays);
    Sleeve(
      day,
      seq(n, k requires 0 <= k < n => rel[k] - day[k] * NS_PER_DAY),
      seq(n, k requires 0 <= k < n => sorted[k].exit - sorted[k].entry),
      Starts(count),
      count)
  }

  ghost predicate Aligned(s: Sleeve) {
    |s.intraday| == |s.hold| == |s.entryDay| && |s.dayStart| == |s.dayCount|
  }

  /** The trades of source day d are exactly the contiguous run the index names, and they
      are sorted by their time of day. */
  ghost predicate DayRun(s: Sleeve, d: int)
    requires Aligned(s) && 0 <= d < |s.dayCount|
  {
    && 0 <= s.dayStart[d] && 0 <= s.dayCount[d] && s.dayStart[d] + s.dayCount[d] <= |s.entryDay|
    && (forall k :: 0 <= k < |s.entryDay| ==>
          (s.entryDay[k] == d <==> s.dayStart[d] <= k < s.dayStart[d] + s.dayCount[d]))
    && (forall j, k :: s.dayStart[d] <= j < k < s.dayStart[d] + s.dayCount[d] ==> s.intraday[j] <= s.intraday[k])
  }

  /** What the gather silently needs of a sleeve. */
  ghost predicate DayIndexed(s: Sleeve) {
    && Aligned(s)
    && (forall k :: 0 <= k < |s.intraday| ==> 0 <= s.intraday[k] < NS_PER_DAY)
    && (forall d :: 0 <= d < |s.dayCount| ==> DayRun(s, d))
  }

  lemma {:induction false} CountStep(day: seq<int>, d: int)
    ensures CountBelow(day, d + 1) == CountBelow(day, d) + CountOf(day, d)
  {
    if day != [] {
      CountStep(day[1..], d);
    }
  }

  lemma {:induction false} StartsCountBelow(day: seq<int>, nDays: nat, d: nat)
    requires forall k :: 0 <= k < |day| ==> 0 <= day[k]
    requires d <= nDays
    ensures Total(BinCount(day, nDays)[..d]) == CountBelow(day, d)
  {
    if d == 0 {
      NoneBelowHead(day, 0);
    } else {
      StartsCountBelow(day, nDays, d - 1);
      TotalSnoc(BinCount(day, nDays), d - 1);
      CountStep(day, d - 1);
    }
  }

  /** In a nondecreasing sequence the elements below d are its first CountBelow. */
  lemma {:induction false} BelowIsPrefix(day: seq<int>, d: int, k: nat)
    requires forall i, j :: 0 <= i < j < |day| ==> day[i] <= day[j]
    requires k < |day|
    ensures CountBelow(day, d) <= |day|
    ensures day[k] < d <==> k < CountBelow(day, d)
  {
    if day[0] < d {
      if |day| > 1 {
        BelowIsPrefix(day[1..], d, if k == 0 then 0 else k - 1);
      }
    } else {
      NoneBelowHead(day, d);
    }
  }

  lemma {:induction false} NoneBelowHead(day: seq<int>, d: int)
    requires forall k :: 0 <= k < |day| ==> d <= day[k]
    ensures CountBelow(day, d) == 0
  {
    if day != [] {
      NoneBelowHead(day[1..], d);
    }
  }

  lemma EntryOrderTotal()
    ensures TotalPreorder(ByEntryThenExit)
  {
  }

  /** The index built from nondecreasing days names each day's contiguous run. */
  lemma IndexNamesRun(day: seq<int>, nDays: nat, d: nat)
    requires d < nDays && forall k :: 0 <= k < |day| ==> 0 <= day[k]
    requires forall i, j :: 0 <= i < j < |day| ==> day[i] <= day[j]
    ensures var count, start := BinCount(day, nDays), Starts(BinCount(day, nDays));
            && |start| == nDays
            && 0 <= start[d] && 0 <= count[d] && start[d] + count[d] <= |day|
            && (forall k :: 0 <= k < |day| ==> (day[k] == d <==> start[d] <= k < start[d] + count[d]))
  {
    var count, start := BinCount(day, nDays), Starts(BinCount(day, nDays));
    StartsCountBelow(day, nDays, d);
    CountStep(day, d);
    CountBelowBound(day, d + 1);
    forall k | 0 <= k < |day| ensures day[k] == d <==> start[d] <= k < start[d] + count[d] {
      BelowIsPrefix(day, d, k);
      BelowIsPrefix(day, d + 1, k);
    }
  }

  lemma SortedDays(sorted: seq<RealTrade>, srcStart: int, srcEnd: int, j: nat, k: nat)
    requires SortedBy(sorted, ByEntryThenExit) && InWindow(sorted, srcStart, srcEnd) && j < k < |sorted|
    ensures var a, b := sorted[j].entry - srcStart, sorted[k].entry - srcStart;
            && a / NS_PER_DAY <= b / NS_PER_DAY
            && (a / NS_PER_DAY == b / NS_PER_DAY ==>
                  a - (a / NS_PER_DAY) * NS_PER_DAY <= b - (b / NS_PER_DAY) * NS_PER_DAY)
  {
    assert ByEntryThenExit(sorted[j], sorted[k]);
  }

  /** Source trades, once sorted and split, carry the day index the gather needs. */
  lemma BuildSleeveIndexed(trades: seq<RealTrade>, srcStart: int, srcEnd: int)
    requires srcStart < srcEnd && InWindow(trades, srcStart, srcEnd)
    ensures DayIndexed(BuildSleeve(trades, srcStart, srcEnd))
    ensures |BuildSleeve(trades, srcStart, srcEnd).dayCount| == CeilDiv(srcEnd - srcStart, NS_PER_DAY)
  {
    var sorted := SortBy(trades, ByEntryThenExit);
    EntryOrderTotal();
    SortSorts(trades, ByEntryThenExit);
    SortKeeps(trades, ByEntryThenExit);
    assert InWindow(sorted, srcStart, srcEnd);
    var s := BuildSleeve(trades, srcStart, srcEnd);
    forall k | 0 <= k < |sorted| ensures 0 <= s.entryDay[k] && 0 <= s.intraday[k] < NS_PER_DAY {
      assert sorted[k] in sorted;
    }
    forall j, k | 0 <= j < k < |sorted|
      ensures s.entryDay[j] <= s.entryDay[k]
      ensures s.entryDay[j] == s.entryDay[k] ==> s.intraday[j] <= s.intraday[k]
    {
      SortedDays(sorted, srcStart, srcEnd, j, k);
    }
    forall d | 0 <= d < |s.dayCount| ensures Aligned(s) && DayRun(s, d) {
      IndexNamesRun(s.entryDay, |s.dayCount|, d);
    }
  }

  /** Splitting a trade into day and intraday parts loses nothing: day and offset give back
      its entry, and the hold its exit, trade by trade in entry order. */
  lemma SleeveReconstructs(trades: seq<RealTrade>, srcStart: int, srcEnd: int)
    requires srcStart < srcEnd
    ensures var s, sorted := BuildSleeve(trades, srcStart, srcEnd), SortBy(trades, ByEntryThenExit);
            && multiset(sorted) == multiset(trades)
            && (forall j, k :: 0 <= j < k < |sorted| ==>
                  sorted[j].entry < sorted[k].entry
                  || (sorted[j].entry == sorted[k].entry && sorted[j].exit <= sorted[k].exit))
            && |s.entryDay| == |s.intraday| == |s.hold| == |sorted|
            && forall k :: 0 <= k < |sorted| ==>
                 && 0 <= s.intraday[k] < 86_400_000_000_000
                 && srcStart + s.entryDay[k] * 86_400_000_000_000 + s.intraday[k] == sorted[k].entry
                 && sorted[k].entry + s.hold[k] == sorted[k].exit
  {
    EntryOrderTotal();
    SortSorts(trades, ByEntryThenExit);
    SortKeeps(trades, ByEntryThenExit);
    var sorted := SortBy(trades, ByEntryThenExit);
    assert forall j, k :: 0 <= j < k < |sorted| ==> ByEntryThenExit(sorted[j], sorted[k]);
  }

  lemma {:induction false} CountBelowBound(day: seq<int>, d: int)
    ensures CountBelow(day, d) <= |day|
  {
    if day != [] {
      CountBelowBound(day[1..], d);
    }
  }

  // ---------------------------------------------------------------- the vectorised gather

  predicate NonNegative(c: seq<int>) {
    forall i :: 0 <= i < |c| ==> 0 <= c[i]
  }

  function Copies(v: seq<int>, c: seq<int>): (r: seq<seq<int>>)
    requires |v| == |c| && NonNegative(c)
    ensures |r| == |c| && Lengths(r) == c
  {
    seq(|v|, i requires 0 <= i < |v| => seq(c[i], _ => v[i]))
  }

  /** `np.repeat(v, c)`. */
  function Repeat(v: seq<int>, c: seq<int>): (r: seq<int>)
    requires |v| == |c| && NonNegative(c)
    ensures |r| == Total(c)
  {
    FlattenLength(Copies(v, c));
    Flatten(Copies(v, c))
  }

  lemma RepeatAt(v: seq<int>, c: seq<int>, p: nat) returns (i: nat, w: nat)
    requires |v| == |c| && NonNegative(c) && p < Total(c)
    ensures i < |c| && w < c[i] && p == Total(c[..i]) + w
    ensures Repeat(v, c)[p] == v[i]
  {
    i, w := FlattenAt(Copies(v, c), p);
  }

  /** Every drawn day is a source day. */
  predicate DaysInRange(s: Sleeve, days: seq<int>) {
    forall k :: 0 <= k < |days| ==> 0 <= days[k] < |s.dayCount|
  }

  function Counts(s: Sleeve, days: seq<int>): (c: seq<int>)
    requires DaysInRange(s, days)
    ensures |c| == |days|
  {
    seq(|days|, k requires 0 <= k < |days| => s.dayCount[days[k]])
  }

  function FirstOf(s: Sleeve, days: seq<int>): (c: seq<int>)
    requires DaysInRange(s, days) && |s.dayStart| == |s.dayCount|
    ensures |c| == |days|
  {
    seq(|days|, k requires 0 <= k < |days| => s.dayStart[days[k]])
  }

  /** `cumsum(counts) - counts`: where each simulated day's run begins in the output. */
  function Offsets(c: seq<int>): (r: seq<int>)
    ensures |r| == |c|
  {
    var run := CumSum(c);
    seq(|c|, k requires 0 <= k < |c| => run[k] - c[k])
  }

  function Arange(n: nat): seq<int> {
    seq(n, i => i)
  }

  ghost predicate Gatherable(s: Sleeve, days: seq<int>) {
    DayIndexed(s) && DaysInRange(s, days) && NonNegative(Counts(s, days))
  }

  lemma IndexedGatherable(s: Sleeve, days: seq<int>)
    requires DayIndexed(s) && DaysInRange(s, days)
    ensures Gatherable(s, days)
  {
    forall k | 0 <= k < |days| ensures 0 <= Counts(s, days)[k] {
      assert DayRun(s, days[k]);
    }
  }

  /** `repeat(start[d], counts) + (arange(total) - repeat(cumsum(counts) - counts, counts))`. */
  function GatherIdx(s: Sleeve, days: seq<int>): (idx: seq<int>)
    requires Gatherable(s, days)
    ensures |idx| == Total(Counts(s, days))
  {
    var c := Counts(s, days);
    var first := Repeat(FirstOf(s, days), c);
    var offset := Repeat(Offsets(c), c);
    seq(|first|, p requires 0 <= p < |first| => first[p] + (p - offset[p]))
  }

  /** Position p of the gather is trade w of simulated day i. */
  lemma GatherAt(s: Sleeve, days: seq<int>, p: nat) returns (i: nat, w: nat)
    requires Gatherable(s, days) && p < Total(Counts(s, days))
    ensures i < |days| && w < Counts(s, days)[i] && p == Total(Counts(s, days)[..i]) + w
    ensures Repeat(Arange(|days|), Counts(s, days))[p] == i
    ensures GatherIdx(s, days)[p] == s.dayStart[days[i]] + w
    ensures 0 <= GatherIdx(s, days)[p] < |s.entryDay|
  {
    var c := Counts(s, days);
    i, w := RepeatAt(Arange(|days|), c, p);
    assert DayRun(s, days[i]);
    var i1, w1 := RepeatAt(FirstOf(s, days), c, p);
    var i2, w2 := RepeatAt(Offsets(c), c, p);
    BlockUnique(c, i, w, i1, w1);
    BlockUnique(c, i, w, i2, w2);
    TotalSnoc(c, i);
  }

  lemma GatherInRange(s: Sleeve, days: seq<int>)
    requires Gatherable(s, days)
    ensures forall p :: 0 <= p < |GatherIdx(s, days)| ==> 0 <= GatherIdx(s, days)[p] < |s.intraday|
  {
    forall p | 0 <= p < |GatherIdx(s, days)| ensures 0 <= GatherIdx(s, days)[p] < |s.intraday| {
      var i, w := GatherAt(s, days, p);
    }
  }

  /** A simulated trade before the hold is added: source index and entry time. */
  datatype Copy = Copy(idx: int, entry: int)

  function Gathered(s: Sleeve, days: seq<int>, simStart: int): (r: seq<Copy>)
    requires Gatherable(s, days)
    ensures |r| == Total(Counts(s, days))
  {
    var idx := GatherIdx(s, days);
    var simDay := Repeat(Arange(|days|), Counts(s, days));
    GatherInRange(s, days);
    seq(|idx|, p requires 0 <= p < |idx| => Copy(idx[p], simStart + simDay[p] * NS_PER_DAY + s.intraday[idx[p]]))
  }

  function KeepBefore(s: seq<Copy>, end: int): seq<Copy> {
    if s == [] then [] else (if s[0].entry < end then [s[0]] else []) + KeepBefore(s[1..], end)
  }

  lemma {:induction false} KeptFrom(s: seq<Copy>, end: int)
    ensures forall c :: c in KeepBefore(s, end) <==> c in s && c.entry < end
  {
    if s != [] {
      KeptFrom(s[1..], end);
      assert s == [s[0]] + s[1..];
    }
  }

  /** `column`: the kept copies, with the exit each one's own hold implies. */
  function ColumnOf(s: Sleeve, days: seq<int>, simStart: int, simEnd: int): Column
    requires Gatherable(s, days)
  {
    var kept := KeepBefore(Gathered(s, days, simStart), simEnd);
    KeptInRange(s, days, simStart, simEnd);
    Column(
      seq(|kept|, p requires 0 <= p < |kept| => kept[p].idx),
      seq(|kept|, p requires 0 <= p < |kept| => kept[p].entry),
      seq(|kept|, p requires 0 <= p < |kept| => kept[p].entry + s.hold[kept[p].idx]))
  }

  /** Every copy names a source trade. */
  ghost predicate CopiesOf(s: Sleeve, kept: seq<Copy>) {
    forall p :: 0 <= p < |kept| ==> 0 <= kept[p].idx < |s.hold|
  }

  lemma KeptInRange(s: Sleeve, days: seq<int>, simStart: int, simEnd: int)
    requires Gatherable(s, days)
    ensures CopiesOf(s, KeepBefore(Gathered(s, days, simStart), simEnd))
  {
    var all := Gathered(s, days, simStart);
    var kept := KeepBefore(all, simEnd);
    KeptFrom(all, simEnd);
    GatherInRange(s, days);
    forall p | 0 <= p < |kept| ensures 0 <= kept[p].idx < |s.hold| {
      assert kept[p] in kept;
      assert kept[p] in all;
      var q :| 0 <= q < |all| && all[q] == kept[p];
      assert all[q].idx == GatherIdx(s, days)[q];
    }
  }

  // ---------------------------------------------------------------- the simple form

  /** Every source trade of source day d, in order, kept if entered before the end.
      Nothing here reads the day index. */
  function DayLoop(s: Sleeve, d: int, base: int, end: int, i: nat): seq<Copy>
    requires |s.intraday| == |s.entryDay| && i <= |s.entryDay|
    decreases |s.entryDay| - i
  {
    if i == |s.entryDay| then []
    else
      (if s.entryDay[i] == d && base + s.intraday[i] < end then [Copy(i, base + s.intraday[i])] else [])
      + DayLoop(s, d, base, end, i + 1)
  }

  /** For each simulated day k, the loop above over source day days[k]. */
  function NestedLoop(s: Sleeve, days: seq<int>, simStart: int, end: int, k: nat): seq<Copy>
    requires |s.intraday| == |s.entryDay| && k <= |days|
    decreases |days| - k
  {
    if k == |days| then []
    else DayLoop(s, days[k], simStart + k * NS_PER_DAY, end, 0) + NestedLoop(s, days, simStart, end, k + 1)
  }

  ghost function Block(s: Sleeve, d: int, base: int): (r: seq<Copy>)
    requires DayIndexed(s) && 0 <= d < |s.dayCount|
    ensures |r| == s.dayCount[d]
  {
    assert DayRun(s, d);
    seq(s.dayCount[d], w requires 0 <= w < s.dayCount[d] =>
      Copy(s.dayStart[d] + w, base + s.intraday[s.dayStart[d] + w]))
  }

  ghost function Blocks(s: Sleeve, days: seq<int>, simStart: int): (r: seq<seq<Copy>>)
    requires Gatherable(s, days)
    ensures |r| == |days| && Lengths(r) == Counts(s, days)
  {
    seq(|days|, k requires 0 <= k < |days| => Block(s, days[k], simStart + k * NS_PER_DAY))
  }

  /** Copy p of the gather is trade w of simulated day i. */
  lemma GatheredAt(s: Sleeve, days: seq<int>, simStart: int, p: nat) returns (i: nat, w: nat)
    requires Gatherable(s, days) && p < Total(Counts(s, days))
    ensures i < |days| && w < Counts(s, days)[i] && p == Total(Counts(s, days)[..i]) + w
    ensures 0 <= s.dayStart[days[i]] + w < |s.intraday| && s.entryDay[s.dayStart[days[i]] + w] == days[i]
    ensures Gathered(s, days, simStart)[p] ==
            Copy(s.dayStart[days[i]] + w, simStart + i * NS_PER_DAY + s.intraday[s.dayStart[days[i]] + w])
  {
    i, w := GatherAt(s, days, p);
    assert DayRun(s, days[i]);
  }

  /** Entry w of block i is trade w of that day's source day, copied to simulated day i. */
  lemma BlockEntry(s: Sleeve, days: seq<int>, simStart: int, i: nat, w: nat)
    requires Gatherable(s, days) && i < |days| && w < Counts(s, days)[i]
    ensures 0 <= s.dayStart[days[i]] + w < |s.intraday|
    ensures w < |Blocks(s, days, simStart)[i]|
    ensures Blocks(s, days, simStart)[i][w]
            == Copy(s.dayStart[days[i]] + w, simStart + i * NS_PER_DAY + s.intraday[s.dayStart[days[i]] + w])
  {
    assert DayRun(s, days[i]);
  }

  lemma GatheredIsFlattenAt(s: Sleeve, days: seq<int>, simStart: int, p: nat)
    requires Gatherable(s, days) && p < Total(Counts(s, days)) == |Flatten(Blocks(s, days, simStart))|
    ensures Gathered(s, days, simStart)[p] == Flatten(Blocks(s, days, simStart))[p]
  {
    var i, w := GatheredAt(s, days, simStart, p);
    var j, v := FlattenAt(Blocks(s, days, simStart), p);
    BlockUnique(Counts(s, days), i, w, j, v);
    BlockEntry(s, days, simStart, i, w);
  }

  lemma GatheredIsFlatten(s: Sleeve, days: seq<int>, simStart: int)
    requires Gatherable(s, days)
    ensures Gathered(s, days, simStart) == Flatten(Blocks(s, days, simStart))
  {
    var all, flat := Gathered(s, days, simStart), Flatten(Blocks(s, days, simStart));
    FlattenLength(Blocks(s, days, simStart));
    forall p | 0 <= p < |all| ensures all[p] == flat[p] {
      GatheredIsFlattenAt(s, days, simStart, p);
    }
  }

  lemma {:induction false} KeepAppend(a: seq<Copy>, b: seq<Copy>, end: int)
    ensures KeepBefore(a + b, end) == KeepBefore(a, end) + KeepBefore(b, end)
  {
    if a == [] {
      assert a + b == b;
    } else {
      assert (a + b)[1..] == a[1..] + b;
      KeepAppend(a[1..], b, end);
    }
  }

  /** From trade i on, the loop over a source day is the rest of that day's block. */
  lemma {:induction false} DayLoopIsBlock(s: Sleeve, d: int, base: int, end: int, i: nat)
    requires DayIndexed(s) && 0 <= d < |s.dayCount| && i <= |s.entryDay| && DayRun(s, d)
    ensures var done := if i <= s.dayStart[d] then 0
                        else if i <= s.dayStart[d] + s.dayCount[d] then i - s.dayStart[d]
                        else s.dayCount[d];
            DayLoop(s, d, base, end, i) == KeepBefore(Block(s, d, base)[done..], end)
    decreases |s.entryDay| - i
  {
    var blk := Block(s, d, base);
    assert DayRun(s, d);
    if i < |s.entryDay| {
      DayLoopIsBlock(s, d, base, end, i + 1);
      if s.entryDay[i] == d {
        var w := i - s.dayStart[d];
        assert blk[w..][0] == Copy(i, base + s.intraday[i]);
        assert blk[w..][1..] == blk[w + 1..];
      }
    }
  }

  lemma DayLoopWhole(s: Sleeve, d: int, base: int, end: int)
    requires DayIndexed(s) && 0 <= d < |s.dayCount|
    ensures DayLoop(s, d, base, end, 0) == KeepBefore(Block(s, d, base), end)
  {
    assert DayRun(s, d);
    DayLoopIsBlock(s, d, base, end, 0);
    assert Block(s, d, base)[0..] == Block(s, d, base);
  }

  /** The kept part of each block from k on, one block after the other. */
  ghost function KeptBlocks(bs: seq<seq<Copy>>, end: int, k: nat): seq<Copy>
    requires k <= |bs|
    decreases |bs| - k
  {
    if k == |bs| then [] else KeepBefore(bs[k], end) + KeptBlocks(bs, end, k + 1)
  }

  lemma {:induction false} KeepFlatten(bs: seq<seq<Copy>>, end: int, k: nat)
    requires k <= |bs|
    ensures KeepBefore(Flatten(bs[k..]), end) == KeptBlocks(bs, end, k)
    decreases |bs| - k
  {
    if k < |bs| {
      assert bs[k..][1..] == bs[k + 1..];
      KeepAppend(bs[k], Flatten(bs[k + 1..]), end);
      KeepFlatten(bs, end, k + 1);
    }
  }

  lemma {:induction false} NestedIsKeptBlocks(s: Sleeve, days: seq<int>, simStart: int, end: int, k: nat)
    requires Gatherable(s, days) && k <= |days|
    ensures NestedLoop(s, days, simStart, end, k) == KeptBlocks(Blocks(s, days, simStart), end, k)
    decreases |days| - k
  {
    if k < |days| {
      NestedIsKeptBlocks(s, days, simStart, end, k + 1);
      DayLoopWhole(s, days[k], simStart + k * NS_PER_DAY, end);
    }
  }

  lemma GatheredKept(s: Sleeve, days: seq<int>, simStart: int, simEnd: int)
    requires Gatherable(s, days)
    ensures KeepBefore(Gathered(s, days, simStart), simEnd) == NestedLoop(s, days, simStart, simEnd, 0)
  {
    var bs := Blocks(s, days, simStart);
    NestedIsKeptBlocks(s, days, simStart, simEnd, 0);
    KeepFlatten(bs, simEnd, 0);
    assert bs[0..] == bs;
    GatheredIsFlatten(s, days, simStart);
  }

  /** The repeat/cumsum gather is the nested loop, for every day sequence. */
  lemma GatherIsNestedLoop(s: Sleeve, days: seq<int>, simStart: int, simEnd: int)
    requires DayIndexed(s) && DaysInRange(s, days)
    ensures Gatherable(s, days)
    ensures var simple := NestedLoop(s, days, simStart, simEnd, 0);
            && |ColumnOf(s, days, simStart, simEnd).idx| == |simple|
            && |ColumnOf(s, days, simStart, simEnd).entry| == |simple|
            && |ColumnOf(s, days, simStart, simEnd).exit| == |simple|
            && forall p :: 0 <= p < |simple| ==>
                 && 0 <= simple[p].idx < |s.hold|
                 && ColumnOf(s, days, simStart, simEnd).idx[p] == simple[p].idx
                 && ColumnOf(s, days, simStart, simEnd).entry[p] == simple[p].entry
                 && ColumnOf(s, days, simStart, simEnd).exit[p] == simple[p].entry + s.hold[simple[p].idx]
  {
    IndexedGatherable(s, days);
    GatheredKept(s, days, simStart, simEnd);
    KeptInRange(s, days, simStart, simEnd);
  }

  // ---------------------------------------------------------------- sortedness

  ghost predicate EntriesSorted(s: seq<Copy>) {
    forall i, j :: 0 <= i < j < |s| ==> s[i].entry <= s[j].entry
  }

  /** Blocks of positions come in order. */
  lemma BlocksInOrder(c: seq<int>, i: nat, w: nat, j: nat, v: nat)
    requires NonNegative(c) && i < |c| && j < |c| && w < c[i] && v < c[j]
    requires Total(c[..i]) + w < Total(c[..j]) + v
    ensures i < j || (i == j && w < v)
  {
    if j < i {
      PrefixMonotone(c, j + 1, i);
      TotalSnoc(c, j);
    }
  }

  lemma GatheredSorted(s: Sleeve, days: seq<int>, simStart: int)
    requires Gatherable(s, days)
    ensures EntriesSorted(Gathered(s, days, simStart))
  {
    var all := Gathered(s, days, simStart);
    forall p, q | 0 <= p < q < |all| ensures all[p].entry <= all[q].entry {
      var i, w := GatheredAt(s, days, simStart, p);
      var j, v := GatheredAt(s, days, simStart, q);
      BlocksInOrder(Counts(s, days), i, w, j, v);
      assert DayRun(s, days[i]);
      if i < j {
      }
    }
  }

  lemma {:induction false} KeepSorted(s: seq<Copy>, end: int)
    requires EntriesSorted(s)
    ensures EntriesSorted(KeepBefore(s, end))
  {
    if s != [] {
      KeepSorted(s[1..], end);
      KeptFrom(s[1..], end);
      var rest := KeepBefore(s[1..], end);
      forall j | 0 <= j < |rest| ensures s[0].entry <= rest[j].entry {
        assert rest[j] in s[1..];
      }
    }
  }

  /** The entry times of a column never go backwards, and all lie before the end: the
      binary searches that slice a column by window rely on it. */
  lemma ColumnSorted(s: Sleeve, days: seq<int>, simStart: int, simEnd: int)
    requires Gatherable(s, days)
    ensures var e := ColumnOf(s, days, simStart, simEnd).entry;
            && (forall i, j :: 0 <= i < j < |e| ==> e[i] <= e[j])
            && (forall i :: 0 <= i < |e| ==> simStart <= e[i] < simEnd)
  {
    var all := Gathered(s, days, simStart);
    GatheredSorted(s, days, simStart);
    KeepSorted(all, simEnd);
    KeptFrom(all, simEnd);
    var kept := KeepBefore(all, simEnd);
    forall i | 0 <= i < |kept| ensures simStart <= kept[i].entry < simEnd {
      assert kept[i] in kept;
      var q :| 0 <= q < |all| && all[q] == kept[i];
      var d, w := GatherAt(s, days, q);
    }
  }
}
