/** Merging study shards: `merge_shards` of `scripts/gate_power_study.py` (replicate ranges) and
    `merge` of `scripts/pooled_universe_study.py` (ranges or residues). */
module StudyMerge {
  import opened Arithmetic
  import opened Sequences
  import opened Ranges
  import opened StudyRuns

  function Declared(s: ShardSpec): set<int> {
    ToSet(Indices(s))
  }

  /** What each kind of shard declares; a residue with a negative step counts down. */
  lemma DeclaredMembers(s: ShardSpec)
    ensures s.Span? ==> forall i :: i in Declared(s) <==> s.start <= i < s.end
    ensures s.Residue? && s.n > 0 ==> forall i :: i in Declared(s) <==> s.k <= i < s.of && (i - s.k) % s.n == 0
    ensures s.Residue? && s.n < 0 ==> forall i :: i in Declared(s) <==> s.of < i <= s.k && (s.k - i) % (-s.n) == 0
    ensures !Stepping(s) ==> Declared(s) == {}
  {
    match s
    case Span(start, end) =>
      forall i ensures i in Declared(s) <==> start <= i < end {
        RangeMembers(start, end, 1, i);
      }
    case Residue(k, n, of) =>
      if n > 0 {
        forall i ensures i in Declared(s) <==> k <= i < of && (i - k) % n == 0 {
          RangeMembers(k, of, n, i);
        }
      } else if n < 0 {
        forall i ensures i in Declared(s) <==> of < i <= k && (k - i) % (-n) == 0 {
          DownwardMembers(k, of, n, i);
        }
      }
  }

  function Parts(docs: seq<Doc>): (p: seq<set<int>>)
    ensures |p| == |docs|
  {
    seq(|docs|, k requires 0 <= k < |docs| => Declared(docs[k].shard))
  }

  function Covered(docs: seq<Doc>): set<int> {
    Union(Parts(docs))
  }

  function AllRuns(docs: seq<Doc>): seq<Row> {
    if docs == [] then [] else AllRuns(docs[..|docs| - 1]) + docs[|docs| - 1].runs
  }

  /** A complete shard of the study that holds exactly what it declares. */
  ghost predicate Whole(d: Doc, ident: string) {
    d.ident == ident && !d.partial && Stepping(d.shard) && Replicates(d.runs) == Declared(d.shard)
  }

  /** No index is declared by two shards. */
  ghost predicate PairwiseDisjoint(docs: seq<Doc>) {
    Disjoint(Parts(docs))
  }

  ghost predicate Mergeable(docs: seq<Doc>, total: int) {
    && docs != []
    && (forall k :: 0 <= k < |docs| ==> Whole(docs[k], docs[0].ident))
    && PairwiseDisjoint(docs)
    && (forall i :: 0 <= i < total ==> i in Covered(docs))
  }

  lemma CoveredMember(docs: seq<Doc>, i: int)
    ensures i in Covered(docs) <==> exists k :: 0 <= k < |docs| && i in Declared(docs[k].shard)
  {
    var p := Parts(docs);
    UnionMember(p, i);
    if i in Covered(docs) {
      var k :| 0 <= k < |docs| && i in p[k];
      assert i in Declared(docs[k].shard);
    }
    if k :| 0 <= k < |docs| && i in Declared(docs[k].shard) {
      assert i in p[k];
    }
  }

  lemma CoveredMembers(docs: seq<Doc>)
    ensures forall i :: i in Covered(docs) <==> exists k :: 0 <= k < |docs| && i in Declared(docs[k].shard)
  {
    forall i ensures i in Covered(docs) <==> exists k :: 0 <= k < |docs| && i in Declared(docs[k].shard) {
      CoveredMember(docs, i);
    }
  }

  /** What the loop has collected from the first k documents, whose parts are p. */
  ghost predicate Collected(docs: seq<Doc>, p: seq<set<int>>, k: nat, ident: string, keys: set<int>, rows: seq<Row>)
    requires k <= |docs| == |p|
  {
    && keys == Union(p[..k]) && rows == AllRuns(docs[..k]) && Disjoint(p[..k])
    && forall i :: 0 <= i < k ==> Whole(docs[i], ident)
  }

  lemma CollectStep(docs: seq<Doc>, p: seq<set<int>>, k: nat, ident: string, keys: set<int>, rows: seq<Row>)
    requires k < |docs| == |p| && Collected(docs, p, k, ident, keys, rows) && Whole(docs[k], ident)
    requires forall i :: i in p[k] ==> i !in keys
    ensures Collected(docs, p, k + 1, ident, keys + p[k], rows + docs[k].runs)
  {
    DisjointStep(p, k);
    assert p[..k + 1][..k] == p[..k];
    assert docs[..k + 1][..k] == docs[..k];
  }

  /** The loop over the documents, with the coverage table it fills. */
  method CollectDocs(docs: seq<Doc>) returns (r: Result<seq<Row>>, covered: map<int, nat>)
    requires docs != []
    ensures r.Ok? <==> PairwiseDisjoint(docs) && forall k :: 0 <= k < |docs| ==> Whole(docs[k], docs[0].ident)
    ensures r.Ok? ==> covered.Keys == Covered(docs) && r.value == AllRuns(docs)
  {
    var ident := docs[0].ident;
    covered := map[];
    var rows: seq<Row> := [];
    ghost var p := Parts(docs);
    for k := 0 to |docs|
      invariant Collected(docs, p, k, ident, covered.Keys, rows)
    {
      var d := docs[k];
      if d.ident != ident {
        return Err("not the same study"), covered;
      }
      if d.partial {
        return Err("a partial checkpoint"), covered;
      }
      if !Stepping(d.shard) {
        return Err("range() arg 3 must not be zero"), covered;
      }
      var want := Declared(d.shard);
      if exists i :: i in want && i in covered {
        ghost var i :| i in want && i in covered;
        OverlapFound(p, k, i);
        return Err("an index is in two shards"), covered;
      }
      if Replicates(d.runs) != want {
        return Err("holds other rows than it declares"), covered;
      }
      CollectStep(docs, p, k, ident, covered.Keys, rows);
      covered := covered + map i | i in want :: k;
      rows := rows + d.runs;
    }
    assert docs[..|docs|] == docs && p[..|docs|] == p;
    r := Ok(rows);
  }

  /** Accepts exactly the mergeable documents, and answers their rows as one run sorts them. */
  method Merge(docs: seq<Doc>, total: int, srs: seq<real>) returns (r: Result<seq<Row>>)
    ensures r.Ok? <==> Mergeable(docs, total)
    ensures r.Ok? ==> r.value == SortBy(AllRuns(docs), ByCell(srs))
  {
    if docs == [] {
      return Err("nothing to merge");
    }
    var rows, covered := CollectDocs(docs);
    if rows.Err? {
      return rows;
    }
    DeclaredMembers(Span(0, total));
    var wanted := ToSet(Range(0, total, 1));
    assert wanted == Declared(Span(0, total));
    if exists i :: i in wanted && i !in covered {
      ghost var i :| i in wanted && i !in covered;
      assert 0 <= i < total;
      return Err("indices not covered by any shard");
    }
    r := Ok(SortBy(rows.value, ByCell(srs)));
  }

  // ---------------------------------------------------------------- tiling

  ghost predicate StaysBelow(docs: seq<Doc>, total: int)
  {
    forall k, i :: 0 <= k < |docs| && i in Declared(docs[k].shard) ==> 0 <= i < total
  }

  /** Each index of [0, total) is in exactly one shard, and there is no other index. */
  ghost predicate Tiles(docs: seq<Doc>, total: int)
  {
    && PairwiseDisjoint(docs)
    && forall i :: i in Covered(docs) <==> 0 <= i < total
  }

  /** Documents the merge accepts tile [0, total) exactly when no shard declares an index
      outside it: the merge checks for gaps and overlaps and does not check that. */
  lemma MergeTilesIffBounded(docs: seq<Doc>, total: int)
    requires Mergeable(docs, total)
    ensures Tiles(docs, total) <==> StaysBelow(docs, total)
  {
    CoveredMembers(docs);
    if Tiles(docs, total) {
      forall k, i | 0 <= k < |docs| && i in Declared(docs[k].shard) ensures 0 <= i < total {
        assert i in Covered(docs);
      }
    }
    if StaysBelow(docs, total) {
      forall i | i in Covered(docs) ensures 0 <= i < total {
        var k :| 0 <= k < |docs| && i in Declared(docs[k].shard);
      }
    }
  }

  /** The shards the scripts' own command lines admit for a plan of the given size. */
  predicate Admitted(s: ShardSpec, total: int) {
    match s
    case Span(start, end) => 0 <= start < end <= total
    case Residue(k, n, of) => 0 <= k < n && of == total
  }

  /** Any number of residue shards is admitted, and deals out the plan: index i goes to shard
      i mod n and to no other. */
  lemma ResidueShards(total: int, n: nat, i: int)
    requires 0 < n && 0 <= i < total
    ensures forall k :: 0 <= k < n ==>
      var s := Residue(k, n, total);
      Admitted(s, total) && Forward(s) && (i in Declared(s) <==> k == i % n)
  {
    forall k | 0 <= k < n ensures i in Declared(Residue(k, n, total)) <==> k == i % n {
      DeclaredMembers(Residue(k, n, total));
      SameResidue(i, k, n);
    }
  }

  /** So is any cut of the plan into consecutive ranges: each index is in the range between the
      cuts around it and in no other. */
  lemma RangeShards(total: int, cuts: seq<int>, i: int, k: nat)
    requires |cuts| >= 2 && cuts[0] == 0 && cuts[|cuts| - 1] == total && Increasing(cuts)
    requires k < |cuts| - 1
    ensures var s := Span(cuts[k], cuts[k + 1]);
            Admitted(s, total) && Forward(s) && (i in Declared(s) <==> cuts[k] <= i < cuts[k + 1])
  {
    DeclaredMembers(Span(cuts[k], cuts[k + 1]));
  }

  /** A merge of shards the scripts themselves wrote therefore tiles exactly. */
  lemma AdmittedTile(docs: seq<Doc>, total: int)
    requires Mergeable(docs, total) && forall k :: 0 <= k < |docs| ==> Admitted(docs[k].shard, total)
    ensures StaysBelow(docs, total) && Tiles(docs, total)
  {
    forall k, i | 0 <= k < |docs| && i in Declared(docs[k].shard) ensures 0 <= i < total {
      DeclaredMembers(docs[k].shard);
    }
    MergeTilesIffBounded(docs, total);
  }

  /** One shard of two replicates is accepted as a study of one: a file no command line admits,
      but which the merge does not refuse. */
  lemma OverlongShardAccepted(b: string)
    ensures var doc := Doc("e1", Span(0, 2), false, [Row(0.0, 0, b), Row(0.0, 1, b)]);
            Mergeable([doc], 1) && !Tiles([doc], 1)
  {
    var doc := Doc("e1", Span(0, 2), false, [Row(0.0, 0, b), Row(0.0, 1, b)]);
    DeclaredMembers(doc.shard);
    CoveredMembers([doc]);
    var rows := doc.runs;
    assert rows[0] in rows && rows[1] in rows;
    assert Replicates(rows) == {0, 1};
    assert Declared(doc.shard) == {0, 1};
    assert [doc][0].shard == doc.shard;
    assert 0 in Covered([doc]) && 1 in Covered([doc]);
  }

  // ---------------------------------------------------------------- confluence

  /** Rows of two disjoint sets of replicates, one after the other. */
  lemma CellsJoin(a: seq<Row>, b: seq<Row>, e: Engine, srs: seq<real>, p: set<int>, q: set<int>)
    requires Cells(a, e, srs, p) && Cells(b, e, srs, q) && forall i :: i in q ==> i !in p
    ensures Cells(a + b, e, srs, p + q)
  {
    forall i, j | 0 <= i < j < |a + b| ensures (a + b)[i] != (a + b)[j] {
      if i < |a| <= j {
        assert a[i] in a && b[j - |a|] in b;
      }
    }
  }

  lemma {:induction false} AllRunsCells(docs: seq<Doc>, p: seq<set<int>>, e: Engine, srs: seq<real>)
    requires |p| == |docs| && Disjoint(p) && forall k :: 0 <= k < |docs| ==> Cells(docs[k].runs, e, srs, p[k])
    ensures Cells(AllRuns(docs), e, srs, Union(p))
  {
    if docs != [] {
      var n := |docs| - 1;
      AllRunsCells(docs[..n], p[..n], e, srs);
      forall i | i in p[n] ensures i !in Union(p[..n]) {
        if i in Union(p[..n]) {
          OverlapFound(p, n, i);
        }
      }
      CellsJoin(AllRuns(docs[..n]), docs[n].runs, e, srs, Union(p[..n]), p[n]);
    }
  }

  /** A finished shard: complete, and exactly the rows of the replicates it declares. */
  ghost predicate Finished(d: Doc, e: Engine, srs: seq<real>, ident: string) {
    d.ident == ident && !d.partial && Stepping(d.shard) && Cells(d.runs, e, srs, Declared(d.shard))
  }

  lemma FinishedIsWhole(d: Doc, e: Engine, srs: seq<real>, ident: string)
    requires Labelled(e) && srs != [] && Finished(d, e, srs, ident)
    ensures Whole(d, ident)
  {
    var s := srs[0];
    assert s in srs;
    forall i | i in Declared(d.shard) ensures i in Replicates(d.runs) {
      var r := e(s, i);
      assert r.sr == s && r.replicate == i;
      assert r in d.runs;
    }
    assert Replicates(d.runs) == Declared(d.shard);
  }

  /** Finished shards that tile [0, total), in any order and any mix of ranges and residues,
      merge into exactly the rows of one uninterrupted run. */
  lemma TilingMerges(docs: seq<Doc>, e: Engine, srs: seq<real>, ident: string, total: int)
    requires docs != [] && Labelled(e) && srs != [] && NoRepeats(srs)
    requires Tiles(docs, total)
    requires forall k :: 0 <= k < |docs| ==> Finished(docs[k], e, srs, ident)
    ensures Mergeable(docs, total)
    ensures SortBy(AllRuns(docs), ByCell(srs)) == Canonical(e, srs, Range(0, total, 1))
  {
    forall k | 0 <= k < |docs| ensures Whole(docs[k], ident) {
      FinishedIsWhole(docs[k], e, srs, ident);
    }
    assert docs[0].ident == ident;
    AllRunsCells(docs, Parts(docs), e, srs);
    RangeIncreasing(0, total, 1);
    forall i ensures i in Covered(docs) <==> i in Range(0, total, 1) {
      RangeMembers(0, total, 1, i);
    }
    SortedCellsCanonical(AllRuns(docs), e, srs, Range(0, total, 1), Covered(docs));
  }

  // ---------------------------------------------------------------- what the merge does not check

  lemma {:induction false} AllRunsMember(docs: seq<Doc>, r: Row)
    ensures r in AllRuns(docs) <==> exists k :: 0 <= k < |docs| && r in docs[k].runs
  {
    if docs != [] {
      var n := |docs| - 1;
      AllRunsMember(docs[..n], r);
      assert docs == docs[..n] + [docs[n]];
      if r in AllRuns(docs[..n]) {
        var k :| 0 <= k < n && r in docs[..n][k].runs;
        assert r in docs[k].runs;
      }
    }
  }

  lemma {:induction false} PartNoRepeats(docs: seq<Doc>, k: nat)
    requires k < |docs| && NoRepeats(AllRuns(docs))
    ensures NoRepeats(docs[k].runs)
    decreases |docs|
  {
    var n := |docs| - 1;
    NoRepeatsSplit(AllRuns(docs[..n]), docs[n].runs);
    if k < n {
      PartNoRepeats(docs[..n], k);
    }
  }

  /** A row of an accepted document belongs to an index it declares, and to no other document. */
  lemma RowsOwner(docs: seq<Doc>, total: int, k: nat, j: nat, r: Row)
    requires Mergeable(docs, total) && k < |docs| && j < |docs| && r in docs[j].runs
    ensures r.replicate in Declared(docs[j].shard)
    ensures r.replicate in Declared(docs[k].shard) ==> j == k
  {
    assert Whole(docs[j], docs[0].ident);
    assert r.replicate in Replicates(docs[j].runs);
    var p := Parts(docs);
    assert r.replicate in p[j] && p[k] == Declared(docs[k].shard);
  }

  lemma EqualRunCells(docs: seq<Doc>, e: Engine, srs: seq<real>, total: int, k: nat)
    requires Labelled(e) && NoRepeats(srs) && Mergeable(docs, total) && StaysBelow(docs, total) && k < |docs|
    requires multiset(AllRuns(docs)) == multiset(Canonical(e, srs, Range(0, total, 1)))
    ensures Cells(docs[k].runs, e, srs, Declared(docs[k].shard))
  {
    var idx := Range(0, total, 1);
    RangeIncreasing(0, total, 1);
    CanonicalMembers(e, srs, idx);
    SamePermutation(AllRuns(docs), Canonical(e, srs, idx));
    NoRepeatsKept(Canonical(e, srs, idx), AllRuns(docs));
    PartNoRepeats(docs, k);
    forall r ensures r in docs[k].runs <==>
        r == e(r.sr, r.replicate) && r.sr in srs && r.replicate in Declared(docs[k].shard) {
      AllRunsMember(docs, r);
      RangeMembers(0, total, 1, r.replicate);
      if r in docs[k].runs {
        RowsOwner(docs, total, k, k, r);
      }
      if r == e(r.sr, r.replicate) && r.sr in srs && r.replicate in Declared(docs[k].shard) {
        assert 0 <= r.replicate < total;
        assert r in AllRuns(docs);
        var j :| 0 <= j < |docs| && r in docs[j].runs;
        RowsOwner(docs, total, k, j, r);
      }
    }
  }

  /** The merge compares index sets only. An accepted merge that stays in bounds is one
      uninterrupted run exactly when every document holds the rows of its replicates at every
      ratio, each once. */
  lemma MergeIsRunIff(docs: seq<Doc>, e: Engine, srs: seq<real>, total: int)
    requires Labelled(e) && srs != [] && NoRepeats(srs) && Mergeable(docs, total) && StaysBelow(docs, total)
    ensures SortBy(AllRuns(docs), ByCell(srs)) == Canonical(e, srs, Range(0, total, 1)) <==>
            forall k :: 0 <= k < |docs| ==> Cells(docs[k].runs, e, srs, Declared(docs[k].shard))
  {
    if SortBy(AllRuns(docs), ByCell(srs)) == Canonical(e, srs, Range(0, total, 1)) {
      SortKeeps(AllRuns(docs), ByCell(srs));
      forall k | 0 <= k < |docs| ensures Cells(docs[k].runs, e, srs, Declared(docs[k].shard)) {
        EqualRunCells(docs, e, srs, total, k);
      }
    }
    if forall k :: 0 <= k < |docs| ==> Cells(docs[k].runs, e, srs, Declared(docs[k].shard)) {
      MergeTilesIffBounded(docs, total);
      forall k | 0 <= k < |docs| ensures Finished(docs[k], e, srs, docs[0].ident) {
        assert Whole(docs[k], docs[0].ident);
      }
      TilingMerges(docs, e, srs, docs[0].ident, total);
    }
  }

  /** A hand-made shard that lacks a ratio of the grid is accepted, and is not such a run. */
  lemma MissingRatioAccepted(e: Engine)
    requires Labelled(e)
    ensures var doc, srs := Doc("e1", Span(0, 1), false, [e(0.0, 0)]), [0.0, 1.0];
            && Mergeable([doc], 1) && StaysBelow([doc], 1)
            && SortBy(AllRuns([doc]), ByCell(srs)) != Canonical(e, srs, Range(0, 1, 1))
  {
    var doc, srs := Doc("e1", Span(0, 1), false, [e(0.0, 0)]), [0.0, 1.0];
    DeclaredMembers(doc.shard);
    CoveredMembers([doc]);
    var rows := doc.runs;
    assert rows[0] in rows && rows[0].replicate == 0;
    assert Replicates(rows) == {0} && Declared(doc.shard) == {0};
    assert [doc][0].shard == doc.shard;
    assert 0 in Covered([doc]);
    var r := e(1.0, 0);
    assert r.sr == 1.0 && r.replicate == 0 && srs[1] in srs;
    assert r !in rows;
    assert !Cells([doc][0].runs, e, srs, Declared([doc][0].shard));
    MergeIsRunIff([doc], e, srs, 1);
  }

  // ---------------------------------------------------------------- whole studies

  /** The document a shard leaves after a history and one last process. */
  function Left(e: Engine, h: Header, history: seq<Session>, last: Session): Option<Doc> {
    match Replay(e, h, None, history)
    case Err(_) => None
    case Ok(file) =>
      match AfterSession(e, h, file, last)
      case Err(_) => None
      case Ok(doc) => doc
  }

  lemma LeftFinished(e: Engine, h: Header, history: seq<Session>, last: Session)
    requires Labelled(e) && h.srs != [] && NoRepeats(h.srs) && Forward(h.shard) && last.killedAfter.None?
    ensures Left(e, h, history, last) == Some(FinalDoc(e, h)) && Finished(FinalDoc(e, h), e, h.srs, h.ident)
  {
    HistoryConfluent(e, h, history, last);
    ForwardIncreasing(h.shard);
    CanonicalMembers(e, h.srs, Indices(h.shard));
  }

  /** A shard's life: the sessions that were cut short and the one that ran to its end. */
  datatype Life = Life(history: seq<Session>, last: Session)

  /** The whole study: ranges and residues that tile [0, total), each run under any history of
      kills, resumes and restarts, merged in any order, give one uninterrupted run's rows. */
  lemma StudyConfluent(
    e: Engine, srs: seq<real>, ident: string, eager: bool, total: int, docs: seq<Doc>, lives: seq<Life>)
    requires docs != [] && Labelled(e) && srs != [] && NoRepeats(srs) && |lives| == |docs| && Tiles(docs, total)
    requires forall k :: 0 <= k < |docs| ==>
      && Forward(docs[k].shard) && lives[k].last.killedAfter.None?
      && Left(e, Header(ident, srs, docs[k].shard, eager), lives[k].history, lives[k].last) == Some(docs[k])
    ensures Mergeable(docs, total)
    ensures SortBy(AllRuns(docs), ByCell(srs)) == Canonical(e, srs, Range(0, total, 1))
  {
    forall k | 0 <= k < |docs| ensures Finished(docs[k], e, srs, ident) {
      LeftFinished(e, Header(ident, srs, docs[k].shard, eager), lives[k].history, lives[k].last);
    }
    TilingMerges(docs, e, srs, ident, total);
  }

  // ---------------------------------------------------------------- order of the shards

  ghost function Bag(docs: seq<Doc>): multiset<Row> {
    if docs == [] then multiset{} else Bag(docs[..|docs| - 1]) + multiset(docs[|docs| - 1].runs)
  }

  lemma {:induction false} BagOfRuns(docs: seq<Doc>)
    ensures multiset(AllRuns(docs)) == Bag(docs)
  {
    if docs != [] {
      BagOfRuns(docs[..|docs| - 1]);
    }
  }

  function Without(docs: seq<Doc>, k: nat): seq<Doc>
    requires k < |docs|
  {
    docs[..k] + docs[k + 1..]
  }

  lemma Regroup<T>(a: multiset<T>, b: multiset<T>, c: multiset<T>)
    ensures a + b + c == a + c + b
  {
  }

  lemma Cancel<T>(a: multiset<T>, b: multiset<T>, x: T)
    requires a + multiset{x} == b + multiset{x}
    ensures a == b
  {
    assert a == a + multiset{x} - multiset{x};
    assert b == b + multiset{x} - multiset{x};
  }

  lemma {:induction false} BagWithout(docs: seq<Doc>, k: nat)
    requires k < |docs|
    ensures Bag(docs) == Bag(Without(docs, k)) + multiset(docs[k].runs)
  {
    var n := |docs| - 1;
    var front, d := docs[..n], docs[n];
    assert docs == front + [d];
    if k == n {
      assert Without(docs, k) == front;
    } else {
      BagWithout(front, k);
      assert Without(docs, k) == Without(front, k) + [d];
      Regroup(Bag(Without(front, k)), multiset(docs[k].runs), multiset(d.runs));
    }
  }

  lemma WithoutCounts(docs: seq<Doc>, k: nat)
    requires k < |docs|
    ensures multiset(docs) == multiset(Without(docs, k)) + multiset{docs[k]}
  {
    assert docs == docs[..k] + [docs[k]] + docs[k + 1..];
  }

  /** The last shard of one list stands somewhere in its rearrangement. */
  lemma MatchLast(docs: seq<Doc>, other: seq<Doc>) returns (k: nat)
    requires multiset(docs) == multiset(other) && docs != []
    ensures k < |other| && other[k] == docs[|docs| - 1]
  {
    SamePermutation(docs, other);
    var d := docs[|docs| - 1];
    assert d in docs;
    k :| 0 <= k < |other| && other[k] == d;
  }

  lemma RestPermutes(docs: seq<Doc>, other: seq<Doc>, k: nat)
    requires multiset(docs) == multiset(other) && docs != []
    requires k < |other| && other[k] == docs[|docs| - 1]
    ensures multiset(docs[..|docs| - 1]) == multiset(Without(other, k))
  {
    var n := |docs| - 1;
    WithoutCounts(docs, n);
    WithoutCounts(other, k);
    assert Without(docs, n) == docs[..n];
    Cancel(multiset(docs[..n]), multiset(Without(other, k)), docs[n]);
  }

  lemma {:induction false} PermutedBags(docs: seq<Doc>, other: seq<Doc>)
    requires multiset(docs) == multiset(other)
    ensures Bag(docs) == Bag(other)
  {
    if docs == [] {
      SamePermutation(docs, other);
    } else {
      var k := MatchLast(docs, other);
      RestPermutes(docs, other, k);
      PermutedBags(docs[..|docs| - 1], Without(other, k));
      BagWithout(other, k);
    }
  }

  /** Rows with unique sort keys come out the same whatever order the shards are given in. */
  lemma MergeOrderIrrelevant(docs: seq<Doc>, other: seq<Doc>, srs: seq<real>)
    requires multiset(docs) == multiset(other) && Separates(AllRuns(docs), ByCell(srs))
    ensures SortBy(AllRuns(docs), ByCell(srs)) == SortBy(AllRuns(other), ByCell(srs))
  {
    BagOfRuns(docs);
    BagOfRuns(other);
    PermutedBags(docs, other);
    SortConfluent(AllRuns(docs), AllRuns(other), ByCell(srs));
  }
}
