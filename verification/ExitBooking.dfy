/** `BootstrapEvaluator.__call__` of `scripts/gate_power_study.py`: on a regular bar
    calendar a trade's whole profit is booked on the bar it exits. */
module ExitBooking {
  import opened Sequences
  import opened Arithmetic
  import opened SearchSorted
  import opened Booking
  import opened DayBootstrap

  /** The calendar's bars, regular from `start`. */
  datatype Calendar = Calendar(start: int, step: int)

  function LoBar(c: Calendar, w: Window): int
    requires c.step > 0
  {
    CeilDiv(w.start - c.start, c.step)
  }

  function HiBar(c: Calendar, w: Window): int
    requires c.step > 0
  {
    CeilDiv(w.end - c.start, c.step)
  }

  /** The bar of the window a trade exits on, counted from the window's first. */
  function ExitBar(c: Calendar, w: Window, exit: int): int
    requires c.step > 0
  {
    Clip((exit - c.start) / c.step, LoBar(c, w), HiBar(c, w) - 1) - LoBar(c, w)
  }

  /** What bar t earns: the profit of every trade that exits on it. */
  ghost function ExitsOn(exit: seq<int>, pnl: seq<real>, c: Calendar, w: Window, t: int): real
    requires c.step > 0 && |exit| == |pnl|
  {
    if exit == [] then 0.0
    else
      var k := |exit| - 1;
      ExitsOn(exit[..k], pnl[..k], c, w, t) + (if ExitBar(c, w, exit[k]) == t then pnl[k] else 0.0)
  }

  ghost function ExitSum(exit: seq<int>, pnl: seq<real>, c: Calendar, w: Window, m: nat): real
    requires c.step > 0 && |exit| == |pnl|
  {
    if m == 0 then 0.0 else ExitSum(exit, pnl, c, w, m - 1) + ExitsOn(exit, pnl, c, w, m - 1)
  }

  lemma {:induction false} ExitSumStep(exit: seq<int>, pnl: seq<real>, c: Calendar, w: Window, m: nat)
    requires c.step > 0 && |exit| == |pnl| && exit != [] && 0 <= ExitBar(c, w, exit[|exit| - 1])
    ensures var k := |exit| - 1;
            ExitSum(exit, pnl, c, w, m) ==
            ExitSum(exit[..k], pnl[..k], c, w, m) + (if ExitBar(c, w, exit[k]) < m then pnl[k] else 0.0)
  {
    if m > 0 {
      ExitSumStep(exit, pnl, c, w, m - 1);
    }
  }

  lemma {:induction false} NoExits(c: Calendar, w: Window, m: nat)
    requires c.step > 0
    ensures ExitSum([], [], c, w, m) == 0.0
  {
    if m > 0 {
      NoExits(c, w, m - 1);
    }
  }

  /** Every exit is clipped into the window, so no profit falls outside its bars. */
  lemma {:induction false} ExitsSumToProfit(exit: seq<int>, pnl: seq<real>, c: Calendar, w: Window)
    requires c.step > 0 && |exit| == |pnl| && LoBar(c, w) < HiBar(c, w)
    ensures ExitSum(exit, pnl, c, w, HiBar(c, w) - LoBar(c, w)) == Sum(pnl)
  {
    if exit == [] {
      NoExits(c, w, HiBar(c, w) - LoBar(c, w));
    } else {
      var k := |exit| - 1;
      ExitsSumToProfit(exit[..k], pnl[..k], c, w);
      ExitSumStep(exit, pnl, c, w, HiBar(c, w) - LoBar(c, w));
      SumSnoc(pnl, k);
      assert pnl[..k + 1] == pnl;
    }
  }

  /** `np.add.at(returns, exit_bar - lo_bar, pnl)` over the trades entered in the window. */
  method EvaluateExits(entry: seq<int>, exit: seq<int>, pnl: seq<real>, c: Calendar, w: Window)
    returns (r: Result<seq<real>>)
    requires Nondecreasing(entry) && |exit| == |pnl| == |entry| && c.step > 0 && w.start <= w.end
    ensures r.Err? <==> HiBar(c, w) - LoBar(c, w) < 1
    ensures r.Ok? ==>
      && |r.value| == HiBar(c, w) - LoBar(c, w)
      && (forall t :: 0 <= t < |r.value| ==>
            r.value[t] == ExitsOn(Slice(entry, exit, w.start, w.end), Slice(entry, pnl, w.start, w.end), c, w, t))
      && Sum(r.value) == Sum(Slice(entry, pnl, w.start, w.end))
  {
    var n := HiBar(c, w) - LoBar(c, w);
    if n < 1 {
      return Err("window holds no bars of the simulated calendar");
    }
    var ex, pl := Slice(entry, exit, w.start, w.end), Slice(entry, pnl, w.start, w.end);
    var acc := new real[n](_ => 0.0);
    for k := 0 to |ex|
      invariant forall t :: 0 <= t < n ==> acc[t] == ExitsOn(ex[..k], pl[..k], c, w, t)
    {
      assert ex[..k + 1][..k] == ex[..k] && pl[..k + 1][..k] == pl[..k];
      var b := ExitBar(c, w, ex[k]);
      acc[b] := acc[b] + pl[k];
    }
    assert ex[..|ex|] == ex && pl[..|ex|] == pl;
    PrefixIsExitSum(acc[..], ex, pl, c, w, n);
    ExitsSumToProfit(ex, pl, c, w);
    assert acc[..][..n] == acc[..];
    r := Ok(acc[..]);
  }

  lemma {:induction false} PrefixIsExitSum(a: seq<real>, exit: seq<int>, pnl: seq<real>, c: Calendar, w: Window, m: nat)
    requires c.step > 0 && |exit| == |pnl| && m <= |a|
    requires forall t :: 0 <= t < |a| ==> a[t] == ExitsOn(exit, pnl, c, w, t)
    ensures Sum(a[..m]) == ExitSum(exit, pnl, c, w, m)
  {
    if m > 0 {
      PrefixIsExitSum(a, exit, pnl, c, w, m - 1);
      SumSnoc(a, m - 1);
    }
  }

  /** The time bar k of the calendar begins. */
  function BarTime(c: Calendar, k: int): int {
    c.start + k * c.step
  }

  lemma FloorBounds(x: int, d: int, k: int)
    requires d > 0
    ensures k <= x / d <==> k * d <= x
  {
    var q := x / d;
    assert x == q * d + x % d;
    if q < k {
      Apart(d, q, k);
    } else if k < q {
      Apart(d, k, q);
    }
  }

  lemma CeilBounds(x: int, d: int, k: int)
    requires d > 0
    ensures CeilDiv(x, d) <= k <==> x <= k * d
  {
    FloorBounds(-x, d, -k);
    assert (-k) * d == -(k * d);
  }

  /** The window's bars are exactly those that begin inside it. */
  lemma WindowBars(c: Calendar, w: Window, k: int)
    requires c.step > 0
    ensures LoBar(c, w) <= k < HiBar(c, w) <==> w.start <= BarTime(c, k) < w.end
  {
    CeilBounds(w.start - c.start, c.step, k);
    CeilBounds(w.end - c.start, c.step, k);
  }

  /** A trade is booked on the last of the window's bars to begin by its exit, or on the
      first of them when it exits before any has begun. */
  lemma ExitBarExact(c: Calendar, w: Window, exit: int, t: nat)
    requires c.step > 0 && t < HiBar(c, w) - LoBar(c, w)
    ensures t <= ExitBar(c, w, exit) <==> t == 0 || BarTime(c, LoBar(c, w) + t) <= exit
  {
    FloorBounds(exit - c.start, c.step, LoBar(c, w) + t);
  }
}
