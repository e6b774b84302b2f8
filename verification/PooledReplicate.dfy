/** `PooledBootstrapReplicate` of `scripts/pooled_universe_study.py`: one day sequence per
    grid point shared by every sleeve, with both memo tables. */
module PooledReplicate {
  import opened DayBootstrap

  /** `np.where(mix < threshold, common, own)`. */
  function Mixed(mix: seq<real>, threshold: real, common: seq<int>, own: seq<int>): (r: seq<int>)
    requires |mix| == |common| == |own|
    ensures |r| == |common|
  {
    seq(|common|, k requires 0 <= k < |common| => if mix[k] < threshold then common[k] else own[k])
  }

  /** The generator outputs a replicate is built from: the common stream's days, and each
      grid point's own days and mixing uniforms. */
  datatype Draws = Draws(common: seq<int>, own: int -> seq<int>, mix: int -> seq<real>, threshold: real)

  ghost predicate WellDrawn(d: Draws, sleeves: seq<Sleeve>, nSim: nat) {
    && |d.common| == nSim
    && (forall j :: |d.own(j)| == nSim)
    && (forall j :: |d.mix(j)| == nSim)
    && (forall i :: 0 <= i < |sleeves| ==> DayIndexed(sleeves[i]) && DaysInRange(sleeves[i], d.common))
    && (forall i, j :: 0 <= i < |sleeves| ==> DaysInRange(sleeves[i], d.own(j)))
  }

  /** The day sequence of grid point j; -1 names the common one. */
  function DaysOf(d: Draws, j: int): seq<int>
    requires |d.own(j)| == |d.common| && |d.mix(j)| == |d.common|
  {
    if j == -1 then d.common else Mixed(d.mix(j), d.threshold, d.common, d.own(j))
  }

  /** The source day of simulated day k at grid point j, from the draws alone. */
  ghost predicate DayDrawn(d: Draws, j: int, k: nat, day: int)
    requires |d.own(j)| == |d.common| && |d.mix(j)| == |d.common| && k < |d.common|
  {
    && (j == -1 ==> day == d.common[k])
    && (j != -1 && d.mix(j)[k] < d.threshold ==> day == d.common[k])
    && (j != -1 && d.mix(j)[k] >= d.threshold ==> day == d.own(j)[k])
  }

  lemma DaysOfDrawn(d: Draws, j: int)
    requires |d.own(j)| == |d.common| && |d.mix(j)| == |d.common|
    ensures |DaysOf(d, j)| == |d.common|
    ensures forall k :: 0 <= k < |d.common| ==> DayDrawn(d, j, k, DaysOf(d, j)[k])
  {
  }

  lemma DaysOfInRange(d: Draws, sleeves: seq<Sleeve>, nSim: nat, j: int, i: nat)
    requires WellDrawn(d, sleeves, nSim) && i < |sleeves|
    ensures |DaysOf(d, j)| == nSim
    ensures DaysInRange(sleeves[i], DaysOf(d, j)) && Gatherable(sleeves[i], DaysOf(d, j))
  {
    assert DaysInRange(sleeves[i], d.own(j));
    IndexedGatherable(sleeves[i], DaysOf(d, j));
  }

  /** Where a gathered copy comes from and when it enters. */
  lemma CopyOf(s: Sleeve, days: seq<int>, simStart: int, p: nat) returns (i: nat)
    requires Gatherable(s, days) && p < |Gathered(s, days, simStart)|
    ensures var x := Gathered(s, days, simStart)[p];
            && i < |days| && 0 <= x.idx < |s.intraday| && s.entryDay[x.idx] == days[i]
            && x.entry == simStart + i * NS_PER_DAY + s.intraday[x.idx]
            && (x.entry - simStart) / NS_PER_DAY == i
  {
    var w: nat;
    i, w := GatheredAt(s, days, simStart, p);
  }

  /** Trade p of a column: it enters at its own time of a simulated day, and its source day is
      the one the draws give that day at grid point j. */
  ghost predicate CopyDrawn(d: Draws, s: Sleeve, j: int, simStart: int, c: Column, p: nat)
    requires |d.own(j)| == |d.common| && |d.mix(j)| == |d.common| && |s.intraday| == |s.entryDay|
    requires p < |c.idx| && p < |c.entry|
  {
    var k := (c.entry[p] - simStart) / NS_PER_DAY;
    && 0 <= k < |d.common| && 0 <= c.idx[p] < |s.entryDay|
    && c.entry[p] == simStart + k * NS_PER_DAY + s.intraday[c.idx[p]]
    && DayDrawn(d, j, k, s.entryDay[c.idx[p]])
  }

  /** Where a copy kept in a column comes from and when it enters. */
  lemma KeptCopy(s: Sleeve, days: seq<int>, simStart: int, simEnd: int, p: nat) returns (k: nat)
    requires Gatherable(s, days) && p < |ColumnOf(s, days, simStart, simEnd).idx|
    ensures var c := ColumnOf(s, days, simStart, simEnd);
            && |c.idx| == |c.entry| && k < |days| && 0 <= c.idx[p] < |s.entryDay| == |s.intraday|
            && s.entryDay[c.idx[p]] == days[k] && (c.entry[p] - simStart) / NS_PER_DAY == k
            && c.entry[p] == simStart + k * NS_PER_DAY + s.intraday[c.idx[p]]
  {
    var all := Gathered(s, days, simStart);
    var kept := KeepBefore(all, simEnd);
    KeptFrom(all, simEnd);
    assert kept[p] in kept;
    var q :| 0 <= q < |all| && all[q] == kept[p];
    k := CopyOf(s, days, simStart, q);
  }

  lemma ColumnDrawn(d: Draws, sleeves: seq<Sleeve>, nSim: nat, j: int, i: nat, simStart: int, simEnd: int)
    requires WellDrawn(d, sleeves, nSim) && i < |sleeves|
    ensures Gatherable(sleeves[i], DaysOf(d, j))
    ensures var c := ColumnOf(sleeves[i], DaysOf(d, j), simStart, simEnd);
            |c.idx| == |c.entry| && forall p :: 0 <= p < |c.idx| ==> CopyDrawn(d, sleeves[i], j, simStart, c, p)
  {
    var s, days := sleeves[i], DaysOf(d, j);
    DaysOfInRange(d, sleeves, nSim, j, i);
    DaysOfDrawn(d, j);
    var c := ColumnOf(s, days, simStart, simEnd);
    forall p | 0 <= p < |c.idx| ensures CopyDrawn(d, s, j, simStart, c, p) {
      var k := KeptCopy(s, days, simStart, simEnd, p);
    }
  }

  class Replicate {
    const sleeves: seq<Sleeve>
    const draws: Draws
    const simStart: int
    const simEnd: int
    var days: map<int, seq<int>>
    var cols: map<(int, int), Column>

    ghost const nSim: nat

    /** Every memo entry is what a fresh computation would give. */
    ghost predicate Valid()
      reads this
    {
      && WellDrawn(draws, sleeves, nSim)
      && (forall j :: j in days ==> days[j] == DaysOf(draws, j))
      && (forall j, i :: (j, i) in cols ==>
            && 0 <= i < |sleeves|
            && Gatherable(sleeves[i], DaysOf(draws, j))
            && cols[(j, i)] == ColumnOf(sleeves[i], DaysOf(draws, j), simStart, simEnd))
    }

    constructor (sleeves: seq<Sleeve>, draws: Draws, simStart: int, simEnd: int, ghost nSim: nat)
      requires WellDrawn(draws, sleeves, nSim)
      ensures Valid() && days == map[] && cols == map[]
      ensures this.sleeves == sleeves && this.draws == draws && this.nSim == nSim
      ensures this.simStart == simStart && this.simEnd == simEnd
    {
      this.sleeves, this.draws, this.simStart, this.simEnd := sleeves, draws, simStart, simEnd;
      this.nSim := nSim;
      days, cols := map[], map[];
    }

    /** The answer never depends on which grid points were asked for before. */
    method Days(j: int) returns (r: seq<int>)
      requires Valid()
      modifies `days
      ensures Valid() && r == DaysOf(draws, j)
      ensures |r| == |draws.common| && forall k :: 0 <= k < |r| ==> DayDrawn(draws, j, k, r[k])
      ensures j in days && days.Keys == old(days).Keys + {j} + (if j in old(days) then {} else {-1})
    {
      DaysOfDrawn(draws, j);
      if j !in days {
        if -1 !in days {
          days := days[-1 := draws.common];
        }
        if j == -1 {
          return days[-1];
        }
        days := days[j := Mixed(draws.mix(j), draws.threshold, days[-1], draws.own(j))];
      }
      r := days[j];
    }

    /** A column is the simple nested loop over the grid point's days, whatever the memo
        tables held, and asking for it leaves the source and every earlier column alone. */
    method Column(j: int, i: nat) returns (c: Column)
      requires Valid() && i < |sleeves|
      modifies `days, `cols
      ensures Valid()
      ensures Gatherable(sleeves[i], DaysOf(draws, j))
      ensures c == ColumnOf(sleeves[i], DaysOf(draws, j), simStart, simEnd)
      ensures |c.idx| == |c.entry| && forall p :: 0 <= p < |c.idx| ==> CopyDrawn(draws, sleeves[i], j, simStart, c, p)
      ensures cols.Keys == old(cols).Keys + {(j, i)} && cols[(j, i)] == c
      ensures forall k :: k in old(cols) ==> cols[k] == old(cols)[k]
    {
      DaysOfInRange(draws, sleeves, nSim, j, i);
      if (j, i) !in cols {
        var d := Days(j);
        cols := cols[(j, i) := ColumnOf(sleeves[i], d, simStart, simEnd)];
      }
      c := cols[(j, i)];
      ColumnDrawn(draws, sleeves, nSim, j, i, simStart, simEnd);
    }
  }

  /** Trades that coincide in the source coincide in the simulation: one simulated day
      copies the same source day on every sleeve, so two sleeves' copies of trades on one
      simulated day land exactly as far apart as the originals were. */
  lemma SleevesMoveTogether(a: Sleeve, b: Sleeve, days: seq<int>, simStart: int, p: nat, q: nat)
    requires Gatherable(a, days) && Gatherable(b, days)
    requires p < |Gathered(a, days, simStart)| && q < |Gathered(b, days, simStart)|
    ensures var x, y := Gathered(a, days, simStart)[p], Gathered(b, days, simStart)[q];
            && 0 <= x.idx < |a.intraday| && 0 <= y.idx < |b.intraday|
            && ((x.entry - simStart) / NS_PER_DAY == (y.entry - simStart) / NS_PER_DAY ==>
                  && a.entryDay[x.idx] == b.entryDay[y.idx]
                  && x.entry - y.entry == a.intraday[x.idx] - b.intraday[y.idx])
  {
    var i := CopyOf(a, days, simStart, p);
    var j := CopyOf(b, days, simStart, q);
  }

  /** Where a grid point's uniform is below the threshold, its copies are of the common day. */
  lemma CommonCopy(
    d: Draws, sleeves: seq<Sleeve>, nSim: nat, j: int, a: nat, simStart: int, simEnd: int, x: Column, p: nat, k: nat)
    requires WellDrawn(d, sleeves, nSim) && a < |sleeves| && k < nSim
    requires Gatherable(sleeves[a], DaysOf(d, j)) && x == ColumnOf(sleeves[a], DaysOf(d, j), simStart, simEnd)
    requires p < |x.entry| && (x.entry[p] - simStart) / NS_PER_DAY == k && d.mix(j)[k] < d.threshold
    ensures |x.idx| == |x.entry| && 0 <= x.idx[p] < |sleeves[a].entryDay| == |sleeves[a].intraday|
    ensures sleeves[a].entryDay[x.idx[p]] == d.common[k]
    ensures x.entry[p] == simStart + k * NS_PER_DAY + sleeves[a].intraday[x.idx[p]]
  {
    var k' := KeptCopy(sleeves[a], DaysOf(d, j), simStart, simEnd, p);
    DaysOfDrawn(d, j);
  }

  /** The correlation the mixing is for: on a simulated day where two grid points' uniforms are
      both below the threshold, their copies, on whatever sleeves, are of one source day and
      land exactly as far apart as the originals were. */
  lemma GridPointsMoveTogether(
    d: Draws, sleeves: seq<Sleeve>, nSim: nat, j: int, l: int, a: nat, b: nat, simStart: int, simEnd: int, x: Column,
    y: Column, p: nat, q: nat, k: nat)
    requires WellDrawn(d, sleeves, nSim) && a < |sleeves| && b < |sleeves| && k < nSim
    requires Gatherable(sleeves[a], DaysOf(d, j)) && x == ColumnOf(sleeves[a], DaysOf(d, j), simStart, simEnd)
    requires Gatherable(sleeves[b], DaysOf(d, l)) && y == ColumnOf(sleeves[b], DaysOf(d, l), simStart, simEnd)
    requires p < |x.entry| && (x.entry[p] - simStart) / NS_PER_DAY == k && d.mix(j)[k] < d.threshold
    requires q < |y.entry| && (y.entry[q] - simStart) / NS_PER_DAY == k && d.mix(l)[k] < d.threshold
    ensures |x.idx| == |x.entry| && |y.idx| == |y.entry|
    ensures 0 <= x.idx[p] < |sleeves[a].entryDay| == |sleeves[a].intraday|
    ensures 0 <= y.idx[q] < |sleeves[b].entryDay| == |sleeves[b].intraday|
    ensures sleeves[a].entryDay[x.idx[p]] == d.common[k] == sleeves[b].entryDay[y.idx[q]]
    ensures x.entry[p] - y.entry[q] == sleeves[a].intraday[x.idx[p]] - sleeves[b].intraday[y.idx[q]]
  {
    CommonCopy(d, sleeves, nSim, j, a, simStart, simEnd, x, p, k);
    CommonCopy(d, sleeves, nSim, l, b, simStart, simEnd, y, q, k);
  }

  /** The two ends of the mixing: a threshold above every uniform gives every grid point the
      common days, and one above none of them its own. */
  lemma MixingEnds(d: Draws, j: int)
    requires |d.own(j)| == |d.common| && |d.mix(j)| == |d.common|
    ensures (forall k :: 0 <= k < |d.common| ==> d.mix(j)[k] < d.threshold) ==> DaysOf(d, j) == d.common
    ensures j != -1 && (forall k :: 0 <= k < |d.common| ==> d.threshold <= d.mix(j)[k]) ==> DaysOf(d, j) == d.own(j)
  {
    DaysOfDrawn(d, j);
  }
}
