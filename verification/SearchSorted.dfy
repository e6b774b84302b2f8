/** `np.searchsorted` over a nondecreasing time axis, and the trade slices of windows. */
module SearchSorted {
  import opened Sequences

  ghost predicate Nondecreasing(a: seq<int>) {
    forall i, j :: 0 <= i < j < |a| ==> a[i] <= a[j]
  }

  /** Binary search of [lo, hi) for the first element that is at least v. */
  function Bisect(a: seq<int>, v: int, lo: nat, hi: nat): (r: nat)
    requires Nondecreasing(a) && lo <= hi <= |a|
    requires forall i :: 0 <= i < lo ==> a[i] < v
    requires forall i :: hi <= i < |a| ==> v <= a[i]
    ensures lo <= r <= hi
    ensures forall i :: 0 <= i < r ==> a[i] < v
    ensures forall i :: r <= i < |a| ==> v <= a[i]
    decreases hi - lo
  {
    if lo == hi then lo
    else
      var mid := (lo + hi) / 2;
      if a[mid] < v then Bisect(a, v, mid + 1, hi) else Bisect(a, v, lo, mid)
  }

  /** `side="left"`: how many elements lie strictly below v. */
  function SearchLeft(a: seq<int>, v: int): (r: nat)
    requires Nondecreasing(a)
    ensures r <= |a|
    ensures forall i :: 0 <= i < |a| ==> (i < r <==> a[i] < v)
  {
    Bisect(a, v, 0, |a|)
  }

  /** `side="right"`: how many elements lie at or below v. */
  function SearchRight(a: seq<int>, v: int): (r: nat)
    requires Nondecreasing(a)
    ensures r <= |a|
    ensures forall i :: 0 <= i < |a| ==> (i < r <==> a[i] <= v)
  {
    SearchLeft(a, v + 1)
  }

  lemma SearchMonotone(a: seq<int>, v: int, w: int)
    requires Nondecreasing(a) && v <= w
    ensures SearchLeft(a, v) <= SearchLeft(a, w)
  {
    var r := SearchLeft(a, w);
    assert r < |a| ==> v <= a[r];
  }

  /** The elements of `col` whose time falls in [start, end). */
  function Slice<T>(times: seq<int>, col: seq<T>, start: int, end: int): (r: seq<T>)
    requires Nondecreasing(times) && |col| == |times| && start <= end
    ensures SearchLeft(times, start) + |r| == SearchLeft(times, end)
  {
    SearchMonotone(times, start, end);
    col[SearchLeft(times, start)..SearchLeft(times, end)]
  }

  /** Adjacent windows share no trade and lose none. */
  lemma AdjacentSlices<T>(times: seq<int>, col: seq<T>, start: int, mid: int, end: int)
    requires Nondecreasing(times) && |col| == |times| && start <= mid <= end
    ensures Slice(times, col, start, mid) + Slice(times, col, mid, end) == Slice(times, col, start, end)
  {
    SearchMonotone(times, start, mid);
    SearchMonotone(times, mid, end);
  }

  /** Any chain of cut points partitions the slice; profit is additive over it. */
  lemma {:induction false} ChainedSlices(times: seq<int>, pnl: seq<real>, cuts: seq<int>)
    requires Nondecreasing(times) && |pnl| == |times|
    requires cuts != [] && Nondecreasing(cuts)
    ensures cuts[0] <= cuts[|cuts| - 1]
    ensures Sum(Slice(times, pnl, cuts[0], cuts[|cuts| - 1])) == ChainProfit(times, pnl, cuts)
  {
    if |cuts| == 1 {
      assert Slice(times, pnl, cuts[0], cuts[0]) == [];
    } else {
      assert forall i, j :: 0 <= i < j < |cuts| - 1 ==> cuts[1..][i] <= cuts[1..][j];
      ChainedSlices(times, pnl, cuts[1..]);
      var last := cuts[|cuts| - 1];
      AdjacentSlices(times, pnl, cuts[0], cuts[1], last);
      SumAppend(Slice(times, pnl, cuts[0], cuts[1]), Slice(times, pnl, cuts[1], last));
    }
  }

  ghost function ChainProfit(times: seq<int>, pnl: seq<real>, cuts: seq<int>): real
    requires Nondecreasing(times) && |pnl| == |times| && Nondecreasing(cuts)
  {
    if |cuts| < 2 then 0.0
    else
      assert forall i, j :: 0 <= i < j < |cuts| - 1 ==> cuts[1..][i] <= cuts[1..][j];
      Sum(Slice(times, pnl, cuts[0], cuts[1])) + ChainProfit(times, pnl, cuts[1..])
  }
}
