/** `BootstrapSleeveEvaluator.__call__` of `scripts/pooled_universe_study.py`: a trade's
    profit is spread over the bars it is held through a difference array. */
module Booking {
  import opened Sequences
  import opened SearchSorted
  import D = DayBootstrap

  const NOTIONAL: real := 10_000.0

  /** A trade's profit and the clipped bars it is held over, both ends included. */
  datatype Booked = Booked(pnl: real, first: int, last: int)

  predicate InBars(b: Booked, n: int) {
    0 <= b.first <= b.last < n
  }

  predicate AllInBars(bs: seq<Booked>, n: int) {
    forall k :: 0 <= k < |bs| ==> InBars(bs[k], n)
  }

  function Share(b: Booked): real
    requires b.first <= b.last
  {
    b.pnl / (b.last - b.first + 1) as real
  }

  // ---------------------------------------------------------------- the simple form

  /** What one bar earns: the share of every trade held over it. */
  function BarReturn(bs: seq<Booked>, t: int): real
    requires forall k :: 0 <= k < |bs| ==> bs[k].first <= bs[k].last
  {
    if bs == [] then 0.0
    else
      var b := bs[|bs| - 1];
      BarReturn(bs[..|bs| - 1], t) + (if b.first <= t <= b.last then Share(b) else 0.0)
  }

  function NetProfit(bs: seq<Booked>): real {
    if bs == [] then 0.0 else NetProfit(bs[..|bs| - 1]) + bs[|bs| - 1].pnl
  }

  // ---------------------------------------------------------------- the difference array

  /** What `np.add.at(diff, first, per)` leaves at slot j. */
  ghost function Opens(bs: seq<Booked>, j: int): real
    requires forall k :: 0 <= k < |bs| ==> bs[k].first <= bs[k].last
  {
    if bs == [] then 0.0
    else
      var b := bs[|bs| - 1];
      Opens(bs[..|bs| - 1], j) + (if b.first == j then Share(b) else 0.0)
  }

  /** What `np.add.at(diff, last + 1, -per)` takes from slot j. */
  ghost function Closes(bs: seq<Booked>, j: int): real
    requires forall k :: 0 <= k < |bs| ==> bs[k].first <= bs[k].last
  {
    if bs == [] then 0.0
    else
      var b := bs[|bs| - 1];
      Closes(bs[..|bs| - 1], j) + (if b.last + 1 == j then Share(b) else 0.0)
  }

  /** Slot t of the array is exactly the change from bar t - 1 to bar t. */
  lemma {:induction false} DiffIsChange(bs: seq<Booked>, t: int)
    requires forall k :: 0 <= k < |bs| ==> bs[k].first <= bs[k].last
    ensures BarReturn(bs, t) - BarReturn(bs, t - 1) == Opens(bs, t) - Closes(bs, t)
  {
    if bs != [] {
      DiffIsChange(bs[..|bs| - 1], t);
    }
  }

  lemma {:induction false} NothingBeforeFirstBar(bs: seq<Booked>, n: int)
    requires AllInBars(bs, n)
    ensures BarReturn(bs, -1) == 0.0
  {
    if bs != [] {
      NothingBeforeFirstBar(bs[..|bs| - 1], n);
    }
  }

  ghost function BarSum(bs: seq<Booked>, m: nat): real
    requires forall k :: 0 <= k < |bs| ==> bs[k].first <= bs[k].last
  {
    if m == 0 then 0.0 else BarSum(bs, m - 1) + BarReturn(bs, m - 1)
  }

  /** How many of the first m bars the trade is held over. */
  ghost function HeldWithin(b: Booked, m: int): int
    requires b.first <= b.last
  {
    if m <= b.first then 0 else if m <= b.last then m - b.first else b.last - b.first + 1
  }

  lemma {:induction false} BarSumStep(bs: seq<Booked>, m: nat)
    requires forall k :: 0 <= k < |bs| ==> bs[k].first <= bs[k].last
    requires bs != [] && 0 <= bs[|bs| - 1].first
    ensures BarSum(bs, m) == BarSum(bs[..|bs| - 1], m) + HeldWithin(bs[|bs| - 1], m) as real * Share(bs[|bs| - 1])
  {
    if m > 0 {
      BarSumStep(bs, m - 1);
    }
  }

  /** Spreading a trade over its bars neither makes nor loses money. */
  lemma {:induction false} BarsSumToProfit(bs: seq<Booked>, n: nat)
    requires AllInBars(bs, n)
    ensures BarSum(bs, n) == NetProfit(bs)
  {
    if bs == [] {
      EmptyBarSum(n);
    } else {
      BarsSumToProfit(bs[..|bs| - 1], n);
      BarSumStep(bs, n);
    }
  }

  lemma {:induction false} EmptyBarSum(n: nat)
    ensures BarSum([], n) == 0.0
  {
    if n > 0 {
      EmptyBarSum(n - 1);
    }
  }

  lemma OpensStep(bs: seq<Booked>, k: nat, j: int)
    requires k < |bs| && forall k :: 0 <= k < |bs| ==> bs[k].first <= bs[k].last
    ensures Opens(bs[..k + 1], j) == Opens(bs[..k], j) + (if bs[k].first == j then Share(bs[k]) else 0.0)
    ensures Closes(bs[..k + 1], j) == Closes(bs[..k], j) + (if bs[k].last + 1 == j then Share(bs[k]) else 0.0)
  {
    assert bs[..k + 1][..k] == bs[..k];
  }

  /** `np.add.at(diff, first, per)` on an array of zeros. */
  method AddOpens(bs: seq<Booked>, n: nat) returns (diff: array<real>)
    requires AllInBars(bs, n)
    ensures fresh(diff) && diff.Length == n + 1
    ensures forall j :: 0 <= j <= n ==> diff[j] == Opens(bs, j)
  {
    diff := new real[n + 1](_ => 0.0);
    for k := 0 to |bs|
      invariant forall j :: 0 <= j <= n ==> diff[j] == Opens(bs[..k], j)
    {
      forall j | 0 <= j <= n { OpensStep(bs, k, j); }
      diff[bs[k].first] := diff[bs[k].first] + Share(bs[k]);
    }
    assert bs[..|bs|] == bs;
  }

  /** `np.add.at(diff, last + 1, -per)`. */
  method SubtractCloses(bs: seq<Booked>, n: nat, diff: array<real>)
    requires AllInBars(bs, n) && diff.Length == n + 1
    modifies diff
    ensures forall j :: 0 <= j <= n ==> diff[j] == old(diff[j]) - Closes(bs, j)
  {
    for k := 0 to |bs|
      invariant forall j :: 0 <= j <= n ==> diff[j] == old(diff[j]) - Closes(bs[..k], j)
    {
      forall j | 0 <= j <= n { OpensStep(bs, k, j); }
      diff[bs[k].last + 1] := diff[bs[k].last + 1] - Share(bs[k]);
    }
    assert bs[..|bs|] == bs;
  }

  /** The two scattered additions, then `np.cumsum(diff[:-1])`. */
  method Book(bs: seq<Booked>, n: nat) returns (perBar: seq<real>)
    requires 1 <= n && AllInBars(bs, n)
    ensures |perBar| == n
    ensures forall t :: 0 <= t < n ==> perBar[t] == BarReturn(bs, t)
    ensures Sum(perBar) == NetProfit(bs)
  {
    var diff := AddOpens(bs, n);
    SubtractCloses(bs, n, diff);
    perBar := [];
    var running := 0.0;
    NothingBeforeFirstBar(bs, n);
    for t := 0 to n
      invariant forall j :: 0 <= j <= n ==> diff[j] == Opens(bs, j) - Closes(bs, j)
      invariant |perBar| == t
      invariant running == BarReturn(bs, t - 1)
      invariant forall u :: 0 <= u < t ==> perBar[u] == BarReturn(bs, u)
      invariant Sum(perBar) == BarSum(bs, t)
    {
      DiffIsChange(bs, t);
      running := running + diff[t];
      SumAppend(perBar, [running]);
      perBar := perBar + [running];
    }
    BarsSumToProfit(bs, n);
  }

  // ---------------------------------------------------------------- the evaluator

  datatype Window = Window(start: int, end: int)

  /** A sleeve's column of simulated trades: source index, entry and exit of each. */
  datatype Sleeve = Sleeve(idx: seq<int>, entry: seq<int>, exit: seq<int>, ret: seq<real>)

  datatype Trade = Trade(entry: int, exit: int, net: real, barsHeld: int)

  datatype Evaluation = Evaluation(netProfit: real, perBar: seq<real>, trades: seq<Trade>)

  ghost predicate Sliceable(s: Sleeve) {
    && Nondecreasing(s.entry)
    && |s.idx| == |s.entry| == |s.exit|
    && forall k :: 0 <= k < |s.idx| ==> 0 <= s.idx[k] < |s.ret|
  }

  function Clip(x: int, lo: int, hi: int): int {
    if x < lo then lo else if x > hi then hi else x
  }

  function Max(a: int, b: int): int { if a < b then b else a }

  function Min(a: int, b: int): int { if a < b then a else b }

  /** Trade k of the column as booked in a window whose bars are [lo, lo + n). */
  function BookedOf(s: Sleeve, bars: seq<int>, w: Window, lo: int, n: int, lift: real, k: nat): (b: Booked)
    requires Sliceable(s) && Nondecreasing(bars) && n >= 1 && k < |s.entry|
    ensures InBars(b, n)
  {
    var first := Clip(SearchRight(bars, s.entry[k]) - 1 - lo, 0, n - 1);
    var last := SearchRight(bars, Min(s.exit[k], w.end - 1)) - 1 - lo;
    Booked((s.ret[s.idx[k]] + lift) * NOTIONAL, first, Clip(Max(last, first), 0, n - 1))
  }

  /** Every trade of the column, in order, as booked in the window. */
  function AllBooked(s: Sleeve, bars: seq<int>, w: Window, lo: int, n: int, lift: real): (bs: seq<Booked>)
    requires Sliceable(s) && Nondecreasing(bars) && n >= 1
    ensures |bs| == |s.entry| && AllInBars(bs, n)
  {
    seq(|s.entry|, k requires 0 <= k < |s.entry| => BookedOf(s, bars, w, lo, n, lift, k))
  }

  /** Reported trades agree with what was booked, keep their own entry and exit, and close
      inside the window: at its last instant if still open, never before their entry. */
  ghost predicate TradesMatch(trades: seq<Trade>, bs: seq<Booked>, entry: seq<int>, exit: seq<int>, w: Window) {
    && |trades| == |bs| == |entry| == |exit|
    && forall k :: 0 <= k < |bs| ==>
         && trades[k].entry == entry[k]
         && trades[k].exit == Max(entry[k], Min(exit[k], w.end - 1))
         && trades[k].net == bs[k].pnl
         && trades[k].barsHeld == bs[k].last - bs[k].first + 1
         && w.start <= trades[k].entry <= trades[k].exit < w.end
  }

  lemma TradesMatchStep(
    trades: seq<Trade>, t: Trade, bs: seq<Booked>, entry: seq<int>, exit: seq<int>, w: Window, k: nat)
    requires k < |bs| == |entry| == |exit| && TradesMatch(trades, bs[..k], entry[..k], exit[..k], w)
    requires TradesMatch([t], [bs[k]], [entry[k]], [exit[k]], w)
    ensures TradesMatch(trades + [t], bs[..k + 1], entry[..k + 1], exit[..k + 1], w)
  {
    assert bs[..k + 1] == bs[..k] + [bs[k]];
    assert entry[..k + 1] == entry[..k] + [entry[k]] && exit[..k + 1] == exit[..k] + [exit[k]];
  }

  /** The loop that turns booked trades into the evaluation's trade records. */
  method Report(bs: seq<Booked>, entry: seq<int>, exit: seq<int>, w: Window) returns (trades: seq<Trade>, net: real)
    requires |entry| == |exit| == |bs|
    requires forall k :: 0 <= k < |entry| ==> w.start <= entry[k] < w.end
    ensures TradesMatch(trades, bs, entry, exit, w) && net == NetProfit(bs)
  {
    trades, net := [], 0.0;
    for k := 0 to |bs|
      invariant TradesMatch(trades, bs[..k], entry[..k], exit[..k], w) && net == NetProfit(bs[..k])
    {
      var out := Min(exit[k], w.end - 1);
      var t := Trade(entry[k], Max(entry[k], out), bs[k].pnl, bs[k].last - bs[k].first + 1);
      TradesMatchStep(trades, t, bs, entry, exit, w, k);
      trades := trades + [t];
      net := net + bs[k].pnl;
      assert bs[..k + 1][..k] == bs[..k];
    }
    assert bs[..|bs|] == bs && entry[..|bs|] == entry && exit[..|bs|] == exit;
  }

  /** What an evaluation promises about the trades `mine`, with their entries and exits,
      booked in a window of n bars. */
  ghost predicate Accounts(e: Evaluation, mine: seq<Booked>, entry: seq<int>, exit: seq<int>, n: int, w: Window) {
    && AllInBars(mine, n)
    && |e.perBar| == n
    && (forall t :: 0 <= t < n ==> e.perBar[t] == BarReturn(mine, t))
    && e.netProfit == NetProfit(mine) == Sum(e.perBar)
    && TradesMatch(e.trades, mine, entry, exit, w)
  }

  /** Booking and reporting of the trades of one window. */
  method Settle(bs: seq<Booked>, entry: seq<int>, exit: seq<int>, n: nat, w: Window) returns (e: Evaluation)
    requires 1 <= n && AllInBars(bs, n) && |entry| == |exit| == |bs|
    requires forall k :: 0 <= k < |entry| ==> w.start <= entry[k] < w.end
    ensures Accounts(e, bs, entry, exit, n, w)
  {
    var trades, net := Report(bs, entry, exit, w);
    var perBar := Book(bs, n);
    e := Evaluation(net, perBar, trades);
  }

  ghost predicate HoldsBar(bars: seq<int>, w: Window)
    requires Nondecreasing(bars)
  {
    SearchLeft(bars, w.start) < SearchLeft(bars, w.end)
  }

  lemma BarInside(bars: seq<int>, w: Window)
    requires Nondecreasing(bars) && HoldsBar(bars, w)
    ensures w.start <= bars[SearchLeft(bars, w.start)] < w.end
  {
  }

  lemma HoldsBarIff(bars: seq<int>, w: Window)
    requires Nondecreasing(bars)
    ensures HoldsBar(bars, w) <==> exists i :: 0 <= i < |bars| && w.start <= bars[i] < w.end
  {
    if HoldsBar(bars, w) {
      BarInside(bars, w);
    }
  }

  /** The slice between the two searches holds the trades entered in the window. */
  lemma EnteredInside(entry: seq<int>, w: Window)
    requires Nondecreasing(entry) && w.start <= w.end
    ensures var a, b := SearchLeft(entry, w.start), SearchLeft(entry, w.end);
            a <= b && forall k :: 0 <= k < b - a ==> w.start <= entry[a..b][k] < w.end
  {
    SearchMonotone(entry, w.start, w.end);
  }

  /** The trades a window evaluates: those entered in it, booked on its own bars. */
  function Mine(s: Sleeve, bars: seq<int>, w: Window, lift: real): (bs: seq<Booked>)
    requires Sliceable(s) && Nondecreasing(bars) && HoldsBar(bars, w)
    ensures w.start <= w.end && |bs| == SearchLeft(s.entry, w.end) - SearchLeft(s.entry, w.start)
    ensures AllInBars(bs, SearchLeft(bars, w.end) - SearchLeft(bars, w.start))
  {
    BarInside(bars, w);
    var lo := SearchLeft(bars, w.start);
    Slice(s.entry, AllBooked(s, bars, w, lo, SearchLeft(bars, w.end) - lo, lift), w.start, w.end)
  }

  /** Refused exactly when the window holds no bar. Otherwise the trades are those entered
      in the window, each bar earns the shares of the trades held over it, every trade is
      closed inside the window, and the bars sum to the window's net profit. `lift` is the
      injected edge less the sleeve's mean. */
  method Evaluate(s: Sleeve, bars: seq<int>, w: Window, lift: real) returns (r: Result<Evaluation>)
    requires Sliceable(s) && Nondecreasing(bars)
    ensures r.Err? <==> forall i :: 0 <= i < |bars| ==> !(w.start <= bars[i] < w.end)
    ensures r.Ok? ==>
      && HoldsBar(bars, w)
      && var a, b, n := SearchLeft(s.entry, w.start), SearchLeft(s.entry, w.end),
                        SearchLeft(bars, w.end) - SearchLeft(bars, w.start);
      && a <= b && Accounts(r.value, Mine(s, bars, w, lift), s.entry[a..b], s.exit[a..b], n, w)
      && |r.value.trades| == b - a
      && forall k :: 0 <= k < b - a ==> r.value.trades[k].net == 10_000.0 * (s.ret[s.idx[a + k]] + lift)
  {
    HoldsBarIff(bars, w);
    if SearchLeft(bars, w.end) - SearchLeft(bars, w.start) < 1 {
      return Err("window holds no simulated bars");
    }
    var e := EvaluateHeld(s, bars, w, lift);
    r := Ok(e);
  }

  /** The evaluation of a window that holds a bar. */
  method EvaluateHeld(s: Sleeve, bars: seq<int>, w: Window, lift: real) returns (e: Evaluation)
    requires Sliceable(s) && Nondecreasing(bars) && HoldsBar(bars, w)
    ensures var a, b, n := SearchLeft(s.entry, w.start), SearchLeft(s.entry, w.end),
                           SearchLeft(bars, w.end) - SearchLeft(bars, w.start);
            && a <= b && Accounts(e, Mine(s, bars, w, lift), s.entry[a..b], s.exit[a..b], n, w)
            && |e.trades| == b - a
            && forall k :: 0 <= k < b - a ==> e.trades[k].net == 10_000.0 * (s.ret[s.idx[a + k]] + lift)
  {
    var n: int := SearchLeft(bars, w.end) - SearchLeft(bars, w.start);
    var bs := Mine(s, bars, w, lift);
    EnteredInside(s.entry, w);
    var a, b := SearchLeft(s.entry, w.start), SearchLeft(s.entry, w.end);
    e := Settle(bs, s.entry[a..b], s.exit[a..b], n, w);
  }

  /** Which bars a trade is held over, in terms of time alone: a bar counts when it has begun
      by the time the trade is closed (the window's first always has) and the next has not
      begun by the time it is entered. An exit beyond the window counts as its last instant. */
  lemma HeldBars(s: Sleeve, bars: seq<int>, w: Window, lift: real, k: nat, t: nat)
    requires Sliceable(s) && Nondecreasing(bars) && HoldsBar(bars, w) && k < |s.entry|
    requires w.start <= s.entry[k] < w.end && t < SearchLeft(bars, w.end) - SearchLeft(bars, w.start)
    ensures var lo := SearchLeft(bars, w.start);
            var b := BookedOf(s, bars, w, lo, SearchLeft(bars, w.end) - lo, lift, k);
            var shut := Max(s.entry[k], Min(s.exit[k], w.end - 1));
            b.first <= t <= b.last <==>
              (t == 0 || bars[lo + t] <= shut) && (lo + t + 1 == |bars| || s.entry[k] < bars[lo + t + 1])
  {
    var lo, hi, entry := SearchLeft(bars, w.start), SearchLeft(bars, w.end), s.entry[k];
    var r, x := SearchRight(bars, entry), SearchRight(bars, Min(s.exit[k], w.end - 1));
    var p := lo + t;
    assert p < r <==> bars[p] <= entry;
    assert p < x <==> bars[p] <= Min(s.exit[k], w.end - 1);
    if p + 1 < |bars| {
      assert p + 1 < r <==> bars[p + 1] <= entry;
    }
    if hi < |bars| {
      assert w.end <= bars[hi];
      assert r <= hi && x <= hi;
    }
  }

  /** The column a replicate gathers is one the evaluator may slice by binary search. */
  lemma GatheredColumnSliceable(src: D.Sleeve, days: seq<int>, simStart: int, simEnd: int, ret: seq<real>)
    requires D.Gatherable(src, days) && |ret| == |src.entryDay|
    ensures var c := D.ColumnOf(src, days, simStart, simEnd); Sliceable(Sleeve(c.idx, c.entry, c.exit, ret))
  {
    D.ColumnSorted(src, days, simStart, simEnd);
    D.KeptInRange(src, days, simStart, simEnd);
  }

  // ---------------------------------------------------------------- adjacent windows

  function Pnl(s: Sleeve, lift: real): (r: seq<real>)
    requires Sliceable(s)
    ensures |r| == |s.entry|
  {
    seq(|s.entry|, k requires 0 <= k < |s.entry| => (s.ret[s.idx[k]] + lift) * NOTIONAL)
  }

  lemma {:induction false} NetIsSum(bs: seq<Booked>, pnl: seq<real>)
    requires |bs| == |pnl| && forall k :: 0 <= k < |bs| ==> bs[k].pnl == pnl[k]
    ensures NetProfit(bs) == Sum(pnl)
  {
    if bs != [] {
      var k := |bs| - 1;
      NetIsSum(bs[..k], pnl[..k]);
      SumSnoc(pnl, k);
      assert pnl[..k + 1] == pnl;
    }
  }

  lemma WindowProfit(s: Sleeve, bars: seq<int>, w: Window, lift: real)
    requires Sliceable(s) && Nondecreasing(bars) && HoldsBar(bars, w)
    ensures w.start <= w.end
    ensures NetProfit(Mine(s, bars, w, lift)) == Sum(Slice(s.entry, Pnl(s, lift), w.start, w.end))
  {
    BarInside(bars, w);
    NetIsSum(Mine(s, bars, w, lift), Slice(s.entry, Pnl(s, lift), w.start, w.end));
  }

  /** What a window earns depends on which trades entered it and not on its bars: two
      adjacent windows earn together what their union earns, with no trade lost or counted
      twice, though a trade may be held over different bars in each. */
  lemma AdjacentWindowsAddUp(s: Sleeve, bars: seq<int>, lift: real, start: int, mid: int, end: int)
    requires Sliceable(s) && Nondecreasing(bars)
    requires HoldsBar(bars, Window(start, mid)) && HoldsBar(bars, Window(mid, end))
    ensures HoldsBar(bars, Window(start, end))
    ensures NetProfit(Mine(s, bars, Window(start, mid), lift)) + NetProfit(Mine(s, bars, Window(mid, end), lift))
            == NetProfit(Mine(s, bars, Window(start, end), lift))
    ensures |Mine(s, bars, Window(start, mid), lift)| + |Mine(s, bars, Window(mid, end), lift)|
            == |Mine(s, bars, Window(start, end), lift)|
  {
    var pnl := Pnl(s, lift);
    WindowProfit(s, bars, Window(start, mid), lift);
    WindowProfit(s, bars, Window(mid, end), lift);
    WindowProfit(s, bars, Window(start, end), lift);
    AdjacentSlices(s.entry, pnl, start, mid, end);
    SumAppend(Slice(s.entry, pnl, start, mid), Slice(s.entry, pnl, mid, end));
  }
}
