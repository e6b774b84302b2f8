/** Trial accounting of `scripts/campaign_k6.py`: the count declared before any result bounds
    what any admissible campaign history can spend. */
module Trials {
  import opened Sequences

  const PRIOR_TRIALS: int := 21_968
  const MAX_GRID_POINTS: int := 8
  const LADDER_CAP: int := 5_000

  /** A generated document: its index and the name of its filter. */
  datatype Doc = Doc(index: int, filter: string)

  predicate Declares(d: Doc, tf: string) {
    tf == "H4" || (tf == "D1" && d.filter != "london_ny")
  }

  /** How many of the listed timeframes the document declares. */
  function DeclaredIn(d: Doc, tfs: seq<string>): nat {
    if tfs == [] then 0 else (if Declares(d, tfs[0]) then 1 else 0) + DeclaredIn(d, tfs[1..])
  }

  function ScreenTrials(docs: seq<Doc>, tfs: seq<string>): nat {
    if docs == [] then 0 else DeclaredIn(docs[0], tfs) + ScreenTrials(docs[1..], tfs)
  }

  /** The pairs of a document and a listed timeframe it declares: every document declares H4, and
      D1 unless it trades the London and New York sessions only. */
  ghost function Pairs(docs: seq<Doc>, tfs: seq<string>): set<(int, int)> {
    set i, j | 0 <= i < |docs| && 0 <= j < |tfs| && Declaring(docs[i], tfs[j]) :: (i, j)
  }

  ghost predicate Declaring(d: Doc, tf: string) {
    (d.filter == "london_ny" ==> tf == "H4") && (tf == "H4" || tf == "D1")
  }

  /** One document's pairs, at position k. */
  ghost function PairsOf(d: Doc, k: int, tfs: seq<string>): set<(int, int)> {
    set j | 0 <= j < |tfs| && Declaring(d, tfs[j]) :: (k, j)
  }

  lemma {:induction false} DeclaredInSnoc(d: Doc, tfs: seq<string>, tf: string)
    ensures DeclaredIn(d, tfs + [tf]) == DeclaredIn(d, tfs) + (if Declares(d, tf) then 1 else 0)
  {
    if tfs == [] {
      assert ([tf])[1..] == [];
    } else {
      assert (tfs + [tf])[1..] == tfs[1..] + [tf];
      DeclaredInSnoc(d, tfs[1..], tf);
    }
  }

  lemma {:induction false} PairsOfCounted(d: Doc, k: int, tfs: seq<string>)
    ensures |PairsOf(d, k, tfs)| == DeclaredIn(d, tfs)
  {
    if tfs != [] {
      var n := |tfs| - 1;
      var front, tf := tfs[..n], tfs[n];
      assert tfs == front + [tf];
      PairsOfCounted(d, k, front);
      DeclaredInSnoc(d, front, tf);
      assert PairsOf(d, k, tfs) == PairsOf(d, k, front) + (if Declaring(d, tf) then {(k, n)} else {});
    }
  }

  lemma {:induction false} ScreenTrialsSnoc(docs: seq<Doc>, d: Doc, tfs: seq<string>)
    ensures ScreenTrials(docs + [d], tfs) == ScreenTrials(docs, tfs) + DeclaredIn(d, tfs)
  {
    if docs == [] {
      assert ([d])[1..] == [];
    } else {
      assert (docs + [d])[1..] == docs[1..] + [d];
      ScreenTrialsSnoc(docs[1..], d, tfs);
    }
  }

  lemma PairsSnoc(docs: seq<Doc>, tfs: seq<string>)
    requires docs != []
    ensures var n := |docs| - 1;
            && Pairs(docs, tfs) == Pairs(docs[..n], tfs) + PairsOf(docs[n], n, tfs)
            && Pairs(docs[..n], tfs) * PairsOf(docs[n], n, tfs) == {}
  {
    var n := |docs| - 1;
    var all, front, last := Pairs(docs, tfs), Pairs(docs[..n], tfs), PairsOf(docs[n], n, tfs);
    forall p ensures p in all <==> p in front || p in last {
      if p in all && p.0 < n {
        assert docs[..n][p.0] == docs[p.0];
        assert p == (p.0, p.1) && p in front;
      }
    }
    forall p | p in front ensures p !in last {
      assert p.0 < n;
    }
  }

  /** The count is the number of those pairs. */
  lemma {:induction false} ScreenTrialsCounted(docs: seq<Doc>, tfs: seq<string>)
    ensures ScreenTrials(docs, tfs) == |Pairs(docs, tfs)|
  {
    if docs == [] {
      assert Pairs(docs, tfs) == {};
    } else {
      var n := |docs| - 1;
      ScreenTrialsCounted(docs[..n], tfs);
      ScreenTrialsSnoc(docs[..n], docs[n], tfs);
      assert docs == docs[..n] + [docs[n]];
      PairsOfCounted(docs[n], n, tfs);
      PairsSnoc(docs, tfs);
    }
  }

  /** The loop of `screen_trials`. */
  method CountScreenTrials(docs: seq<Doc>, tfs: seq<string>) returns (total: nat)
    ensures total == ScreenTrials(docs, tfs) == |Pairs(docs, tfs)|
  {
    ScreenTrialsCounted(docs, tfs);
    total := 0;
    for k := 0 to |docs|
      invariant total + ScreenTrials(docs[k..], tfs) == ScreenTrials(docs, tfs)
    {
      total := total + DeclaredIn(docs[k], tfs);
      assert docs[k..][1..] == docs[k + 1..];
    }
    assert docs[|docs|..] == [];
  }

  function DeclaredTrueN(docs: seq<Doc>, tfs: seq<string>, universes: nat): int {
    PRIOR_TRIALS + ScreenTrials(docs, tfs) * universes + LADDER_CAP * (MAX_GRID_POINTS - 1) * |tfs| * universes
  }

  function ExternalTrials(declared: int, own: int): int {
    declared - own
  }

  // ---------------------------------------------------------------- histories

  /** A trial-spending step: a document screened, or a survivor laddered over its grid. */
  datatype Event =
    | Screened(universe: nat, tf: string, doc: int)
    | Laddered(universe: nat, tf: string, doc: int, grid: int)

  /** The default point of a laddered grid was already counted by the screen. */
  function Cost(e: Event): int {
    if e.Screened? then 1 else e.grid - 1
  }

  function Spent(h: seq<Event>): int {
    if h == [] then 0 else Spent(h[..|h| - 1]) + Cost(h[|h| - 1])
  }

  predicate At(e: Event, u: nat, tf: string) {
    e.universe == u && e.tf == tf
  }

  /** The documents screened in one universe and timeframe. */
  function ScreenedAt(h: seq<Event>, u: nat, tf: string): seq<int> {
    if h == [] then []
    else
      var e := h[|h| - 1];
      ScreenedAt(h[..|h| - 1], u, tf) + (if e.Screened? && At(e, u, tf) then [e.doc] else [])
  }

  function LadderedAt(h: seq<Event>, u: nat, tf: string): nat {
    if h == [] then 0
    else
      var e := h[|h| - 1];
      LadderedAt(h[..|h| - 1], u, tf) + (if e.Laddered? && At(e, u, tf) then 1 else 0)
  }

  /** The indices of the documents that declare a timeframe. */
  function PoolOf(docs: seq<Doc>, tf: string): seq<int> {
    if docs == [] then [] else (if Declares(docs[0], tf) then [docs[0].index] else []) + PoolOf(docs[1..], tf)
  }

  /** In every universe and timeframe each declaring document is screened at most once, and
      at most the cap of survivors is laddered, each after its screen and over a grid of one
      to eight points. */
  ghost predicate Admissible(h: seq<Event>, docs: seq<Doc>, tfs: seq<string>, universes: nat) {
    && (forall k :: 0 <= k < |h| ==> h[k].universe < universes && h[k].tf in tfs)
    && (forall k :: 0 <= k < |h| && h[k].Laddered? ==>
          1 <= h[k].grid <= 8 && h[k].doc in ScreenedAt(h[..k], h[k].universe, h[k].tf))
    && (forall u: nat, tf :: NoRepeats(ScreenedAt(h, u, tf)))
    && (forall u: nat, tf, d :: d in ScreenedAt(h, u, tf) ==> d in PoolOf(docs, tf))
    && (forall u: nat, tf :: LadderedAt(h, u, tf) <= 5_000)
  }

  // ---------------------------------------------------------------- the bound

  /** The most one universe and timeframe can have cost. */
  function Bucket(h: seq<Event>, u: nat, tf: string): int {
    |ScreenedAt(h, u, tf)| + (MAX_GRID_POINTS - 1) * LadderedAt(h, u, tf)
  }

  function Row(h: seq<Event>, u: nat, tfs: seq<string>): int {
    if tfs == [] then 0 else Bucket(h, u, tfs[0]) + Row(h, u, tfs[1..])
  }

  function Table(h: seq<Event>, n: nat, tfs: seq<string>): int {
    if n == 0 then 0 else Table(h, n - 1, tfs) + Row(h, n - 1, tfs)
  }

  /** What an event adds to the bucket it falls in. */
  function Weight(e: Event): int {
    if e.Screened? then 1 else MAX_GRID_POINTS - 1
  }

  lemma {:induction false} RowStep(h: seq<Event>, u: nat, tfs: seq<string>)
    requires h != [] && NoRepeats(tfs)
    ensures var n := |h| - 1; var e := h[n];
            Row(h, u, tfs) == Row(h[..n], u, tfs) + (if e.universe == u && e.tf in tfs then Weight(e) else 0)
  {
    if tfs != [] {
      RowStep(h, u, tfs[1..]);
      assert tfs == [tfs[0]] + tfs[1..];
      assert forall j :: 0 < j < |tfs| ==> tfs[j] != tfs[0];
      assert tfs[0] !in tfs[1..];
    }
  }

  /** What the event e adds to a row of the table that covers the listed timeframes. */
  function RowGain(e: Event, u: nat, tfs: seq<string>): int {
    if e.universe == u && e.tf in tfs then Weight(e) else 0
  }

  lemma {:induction false} TableStep(h: seq<Event>, front: seq<Event>, e: Event, m: nat, tfs: seq<string>)
    requires forall u: nat :: Row(h, u, tfs) == Row(front, u, tfs) + RowGain(e, u, tfs)
    ensures Table(h, m, tfs) == Table(front, m, tfs) + (if e.universe < m && e.tf in tfs then Weight(e) else 0)
  {
    if m > 0 {
      TableStep(h, front, e, m - 1, tfs);
      var u: nat := m - 1;
      assert Row(h, u, tfs) == Row(front, u, tfs) + RowGain(e, u, tfs);
    }
  }

  lemma {:induction false} SpentBelowTable(h: seq<Event>, n: nat, tfs: seq<string>)
    requires NoRepeats(tfs)
    requires forall k :: 0 <= k < |h| ==> h[k].universe < n && h[k].tf in tfs
    requires forall k :: 0 <= k < |h| && h[k].Laddered? ==> 1 <= h[k].grid <= MAX_GRID_POINTS
    ensures Spent(h) <= Table(h, n, tfs)
  {
    if h == [] {
      EmptyTable(n, tfs);
    } else {
      SpentBelowTable(h[..|h| - 1], n, tfs);
      var last := |h| - 1;
      forall u: nat ensures Row(h, u, tfs) == Row(h[..last], u, tfs) + RowGain(h[last], u, tfs) {
        RowStep(h, u, tfs);
      }
      TableStep(h, h[..last], h[last], n, tfs);
    }
  }

  lemma {:induction false} EmptyTable(n: nat, tfs: seq<string>)
    ensures Table([], n, tfs) == 0
  {
    if n > 0 {
      EmptyTable(n - 1, tfs);
      EmptyRow(n - 1, tfs);
    }
  }

  lemma {:induction false} EmptyRow(u: nat, tfs: seq<string>)
    ensures Row([], u, tfs) == 0
  {
    if tfs != [] {
      EmptyRow(u, tfs[1..]);
    }
  }

  /** A list without repeats is no longer than any list it draws from. */
  lemma {:induction false} NoLonger(a: seq<int>, b: seq<int>)
    requires NoRepeats(a) && forall x :: x in a ==> x in b
    ensures |a| <= |b|
  {
    if a != [] {
      var x := a[0];
      assert x in a;
      var k :| 0 <= k < |b| && b[k] == x;
      var rest := b[..k] + b[k + 1..];
      forall y | y in a[1..] ensures y in rest {
        assert y in a && y != x;
        var j :| 0 <= j < |b| && b[j] == y;
        assert y == if j < k then rest[j] else rest[j - 1];
      }
      NoLonger(a[1..], rest);
    }
  }

  function PoolSizes(docs: seq<Doc>, tfs: seq<string>): nat {
    if tfs == [] then 0 else |PoolOf(docs, tfs[0])| + PoolSizes(docs, tfs[1..])
  }

  /** Counting trials document by document or timeframe by timeframe is the same. */
  lemma {:induction false} ScreenTrialsByTimeframe(docs: seq<Doc>, tfs: seq<string>)
    ensures ScreenTrials(docs, tfs) == PoolSizes(docs, tfs)
  {
    if docs == [] {
      NoDocuments(tfs);
    } else {
      ScreenTrialsByTimeframe(docs[1..], tfs);
      OneMoreDocument(docs, tfs);
    }
  }

  lemma {:induction false} NoDocuments(tfs: seq<string>)
    ensures PoolSizes([], tfs) == 0
  {
    if tfs != [] {
      NoDocuments(tfs[1..]);
    }
  }

  lemma {:induction false} OneMoreDocument(docs: seq<Doc>, tfs: seq<string>)
    requires docs != []
    ensures PoolSizes(docs, tfs) == DeclaredIn(docs[0], tfs) + PoolSizes(docs[1..], tfs)
  {
    if tfs != [] {
      OneMoreDocument(docs, tfs[1..]);
    }
  }

  /** What the ladder can add to one universe and timeframe. */
  const BUCKET_LADDER: int := (MAX_GRID_POINTS - 1) * LADDER_CAP

  lemma BucketBound(h: seq<Event>, u: nat, tf: string, docs: seq<Doc>, tfs: seq<string>, universes: nat)
    requires Admissible(h, docs, tfs, universes)
    ensures Bucket(h, u, tf) <= |PoolOf(docs, tf)| + BUCKET_LADDER
  {
    assert LadderedAt(h, u, tf) <= LADDER_CAP;
    NoLonger(ScreenedAt(h, u, tf), PoolOf(docs, tf));
  }

  lemma {:induction false} RowBound(h: seq<Event>, u: nat, docs: seq<Doc>, tfs: seq<string>)
    requires forall tf :: Bucket(h, u, tf) <= |PoolOf(docs, tf)| + BUCKET_LADDER
    ensures Row(h, u, tfs) <= PoolSizes(docs, tfs) + BUCKET_LADDER * |tfs|
  {
    if tfs != [] {
      RowBound(h, u, docs, tfs[1..]);
      assert Bucket(h, u, tfs[0]) <= |PoolOf(docs, tfs[0])| + BUCKET_LADDER;
      assert BUCKET_LADDER * |tfs| == BUCKET_LADDER * |tfs[1..]| + BUCKET_LADDER;
    }
  }

  lemma {:induction false} TableOfRows(h: seq<Event>, n: nat, tfs: seq<string>, r: int)
    requires forall u: nat :: Row(h, u, tfs) <= r
    ensures Table(h, n, tfs) <= n * r
  {
    if n > 0 {
      TableOfRows(h, n - 1, tfs, r);
      var u: nat := n - 1;
      assert Row(h, u, tfs) <= r;
      assert n * r == (n - 1) * r + r;
    }
  }

  lemma TableBound(h: seq<Event>, n: nat, docs: seq<Doc>, tfs: seq<string>, universes: nat)
    requires Admissible(h, docs, tfs, universes)
    ensures Table(h, n, tfs) <= n * (PoolSizes(docs, tfs) + BUCKET_LADDER * |tfs|)
  {
    forall u: nat ensures Row(h, u, tfs) <= PoolSizes(docs, tfs) + BUCKET_LADDER * |tfs| {
      RowOf(h, u, docs, tfs, universes);
    }
    TableOfRows(h, n, tfs, PoolSizes(docs, tfs) + BUCKET_LADDER * |tfs|);
  }

  lemma RowOf(h: seq<Event>, u: nat, docs: seq<Doc>, tfs: seq<string>, universes: nat)
    requires Admissible(h, docs, tfs, universes)
    ensures Row(h, u, tfs) <= PoolSizes(docs, tfs) + BUCKET_LADDER * |tfs|
  {
    forall tf ensures Bucket(h, u, tf) <= |PoolOf(docs, tf)| + BUCKET_LADDER {
      BucketBound(h, u, tf, docs, tfs, universes);
    }
    RowBound(h, u, docs, tfs);
  }

  /** No admissible history spends more than was declared, and every candidate's deflation
      count, its external trials plus its own grid, is that declared count. */
  lemma DeclaredBoundsEveryHistory(h: seq<Event>, docs: seq<Doc>, tfs: seq<string>, universes: nat, own: int)
    requires NoRepeats(tfs) && Admissible(h, docs, tfs, universes)
    ensures 21_968 + Spent(h) <= DeclaredTrueN(docs, tfs, universes)
    ensures DeclaredTrueN(docs, tfs, universes)
            == 21_968 + |Pairs(docs, tfs)| * universes + 5_000 * 7 * |tfs| * universes
    ensures ExternalTrials(DeclaredTrueN(docs, tfs, universes), own) + own == DeclaredTrueN(docs, tfs, universes)
  {
    SpentBelowTable(h, universes, tfs);
    TableBound(h, universes, docs, tfs, universes);
    DeclaredByTimeframe(docs, tfs, universes);
    ScreenTrialsCounted(docs, tfs);
  }

  lemma DeclaredByTimeframe(docs: seq<Doc>, tfs: seq<string>, universes: nat)
    ensures DeclaredTrueN(docs, tfs, universes)
            == PRIOR_TRIALS + universes * (PoolSizes(docs, tfs) + BUCKET_LADDER * |tfs|)
  {
    ScreenTrialsByTimeframe(docs, tfs);
  }

  // ---------------------------------------------------------------- what a trial is

  /** One trial: a document at one point of its grid, in one universe and timeframe. Point 0 is
      the default, which the screen tries. */
  datatype Trial = Trial(universe: nat, tf: string, doc: int, point: int)

  ghost function TriedBy(e: Event): set<Trial> {
    match e
    case Screened(u, tf, d) => {Trial(u, tf, d, 0)}
    case Laddered(u, tf, d, grid) => set p | 0 <= p < grid :: Trial(u, tf, d, p)
  }

  ghost function Tried(h: seq<Event>): set<Trial> {
    if h == [] then {} else Tried(h[..|h| - 1]) + TriedBy(h[|h| - 1])
  }

  /** No document is laddered twice in one universe and timeframe. */
  ghost predicate LaddersOnce(h: seq<Event>) {
    forall j, k :: 0 <= j < k < |h| && h[j].Laddered? && h[k].Laddered? && At(h[j], h[k].universe, h[k].tf) ==>
      h[j].doc != h[k].doc
  }

  /** Each document is screened once and laddered only after that. */
  ghost predicate ScreensFirst(h: seq<Event>) {
    && (forall u: nat, tf :: NoRepeats(ScreenedAt(h, u, tf)))
    && (forall k :: 0 <= k < |h| && h[k].Laddered? ==>
          1 <= h[k].grid && h[k].doc in ScreenedAt(h[..k], h[k].universe, h[k].tf))
  }

  lemma ScreensFirstFront(h: seq<Event>)
    requires h != [] && ScreensFirst(h)
    ensures ScreensFirst(h[..|h| - 1])
  {
    var n := |h| - 1;
    forall u: nat, tf ensures NoRepeats(ScreenedAt(h[..n], u, tf)) {
      var more := if h[n].Screened? && At(h[n], u, tf) then [h[n].doc] else [];
      assert ScreenedAt(h, u, tf) == ScreenedAt(h[..n], u, tf) + more;
      assert NoRepeats(ScreenedAt(h, u, tf));
      NoRepeatsSplit(ScreenedAt(h[..n], u, tf), more);
    }
    forall k | 0 <= k < n && h[..n][k].Laddered?
      ensures 1 <= h[..n][k].grid && h[..n][k].doc in ScreenedAt(h[..n][..k], h[..n][k].universe, h[..n][k].tf)
    {
      assert h[..n][..k] == h[..k];
    }
  }

  lemma {:induction false} ScreenedGrows(h: seq<Event>, k: nat, u: nat, tf: string, d: int)
    requires k <= |h| && d in ScreenedAt(h[..k], u, tf)
    ensures d in ScreenedAt(h, u, tf)
    decreases |h|
  {
    if k < |h| {
      var n := |h| - 1;
      assert h[..n][..k] == h[..k];
      ScreenedGrows(h[..n], k, u, tf, d);
    } else {
      assert h[..k] == h;
    }
  }

  /** Whatever was tried was tried by an event, and of a screened document. */
  lemma {:induction false} TriedWasScreened(h: seq<Event>, t: Trial)
    requires ScreensFirst(h) && t in Tried(h)
    ensures t.doc in ScreenedAt(h, t.universe, t.tf)
    ensures t.point != 0 ==>
      exists k :: 0 <= k < |h| && h[k].Laddered? && At(h[k], t.universe, t.tf) && h[k].doc == t.doc
  {
    var n := |h| - 1;
    if t in Tried(h[..n]) {
      ScreensFirstFront(h);
      TriedWasScreened(h[..n], t);
      if t.point != 0 {
        var k :| 0 <= k < n && h[..n][k].Laddered? && At(h[..n][k], t.universe, t.tf) && h[..n][k].doc == t.doc;
        assert h[k] == h[..n][k];
      }
    } else {
      assert t in TriedBy(h[n]);
      if h[n].Laddered? {
        ScreenedGrows(h, n, t.universe, t.tf, t.doc);
      }
    }
  }

  lemma {:induction false} ScreenedIsTried(h: seq<Event>, u: nat, tf: string, d: int)
    requires d in ScreenedAt(h, u, tf)
    ensures Trial(u, tf, d, 0) in Tried(h)
  {
    var n := |h| - 1;
    if d in ScreenedAt(h[..n], u, tf) {
      ScreenedIsTried(h[..n], u, tf, d);
    }
  }

  lemma {:induction false} PointsCounted(u: nat, tf: string, d: int, from: int, grid: int)
    requires from <= grid
    ensures |set p | from <= p < grid :: Trial(u, tf, d, p)| == grid - from
    decreases grid - from
  {
    var all := set p | from <= p < grid :: Trial(u, tf, d, p);
    if from == grid {
      assert all == {};
    } else {
      PointsCounted(u, tf, d, from, grid - 1);
      var fewer := set p | from <= p < grid - 1 :: Trial(u, tf, d, p);
      assert all == fewer + {Trial(u, tf, d, grid - 1)};
      assert Trial(u, tf, d, grid - 1) !in fewer;
    }
  }

  /** A screen tries something new. */
  lemma ScreenIsNew(h: seq<Event>, e: Event)
    requires ScreensFirst(h + [e]) && ScreensFirst(h) && e.Screened?
    ensures TriedBy(e) * Tried(h) == {} && |TriedBy(e)| == Cost(e)
  {
    var t, before := Trial(e.universe, e.tf, e.doc, 0), ScreenedAt(h, e.universe, e.tf);
    var after := ScreenedAt(h + [e], e.universe, e.tf);
    assert (h + [e])[..|h|] == h;
    assert after == before + [e.doc] && NoRepeats(after);
    forall i | 0 <= i < |before| ensures before[i] != e.doc {
      assert after[i] != after[|before|];
    }
    if t in Tried(h) {
      TriedWasScreened(h, t);
      assert false;
    }
  }

  /** A ladder run tries every point of its grid but the default for the first time. */
  lemma LadderIsNew(h: seq<Event>, e: Event)
    requires ScreensFirst(h + [e]) && ScreensFirst(h) && LaddersOnce(h + [e]) && e.Laddered?
    ensures TriedBy(e) * Tried(h) == {Trial(e.universe, e.tf, e.doc, 0)} && |TriedBy(e) - Tried(h)| == Cost(e)
  {
    var all := h + [e];
    assert all[..|h|] == h && all[|h|] == e;
    ScreenedIsTried(h, e.universe, e.tf, e.doc);
    forall k | 0 <= k < |h| && h[k].Laddered? && At(h[k], e.universe, e.tf) ensures h[k].doc != e.doc {
      assert all[k] == h[k];
    }
    var first := Trial(e.universe, e.tf, e.doc, 0);
    forall t | t in TriedBy(e) && t in Tried(h) ensures t == first {
      if t.point != 0 {
        TriedWasScreened(h, t);
        assert false;
      }
    }
    var fresh1 := set p | 1 <= p < e.grid :: Trial(e.universe, e.tf, e.doc, p);
    PointsCounted(e.universe, e.tf, e.doc, 1, e.grid);
    assert TriedBy(e) - Tried(h) == fresh1;
  }

  lemma NewCounts(a: set<Trial>, b: set<Trial>)
    ensures |a + b| == |a| + |b - a|
  {
    assert a + b == a + (b - a);
  }

  /** What is spent is the number of distinct trials: nothing tried is free, and nothing is
      charged twice. */
  lemma {:induction false} SpentCountsTrials(h: seq<Event>)
    requires ScreensFirst(h) && LaddersOnce(h)
    ensures Spent(h) == |Tried(h)|
  {
    if h != [] {
      var n := |h| - 1;
      var front, e := h[..n], h[n];
      assert h == front + [e];
      ScreensFirstFront(h);
      SpentCountsTrials(front);
      NewCounts(Tried(front), TriedBy(e));
      if e.Screened? {
        ScreenIsNew(front, e);
        assert TriedBy(e) - Tried(front) == TriedBy(e);
      } else {
        LadderIsNew(front, e);
      }
    }
  }

  /** So no admissible history tries more than was declared. */
  lemma DeclaredBoundsTrials(h: seq<Event>, docs: seq<Doc>, tfs: seq<string>, universes: nat)
    requires NoRepeats(tfs) && Admissible(h, docs, tfs, universes) && LaddersOnce(h)
    ensures 21_968 + |Tried(h)| <= 21_968 + |Pairs(docs, tfs)| * universes + 5_000 * 7 * |tfs| * universes
  {
    SpentCountsTrials(h);
    DeclaredBoundsEveryHistory(h, docs, tfs, universes, 1);
  }
}
