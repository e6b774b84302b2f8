/** Interleaved shards of a pool and `merge` of `scripts/campaign_k6.py`: gaps, overlaps and
    strangers are refused, and nothing else is. */
module CampaignMerge {
  import opened Sequences
  import opened Arithmetic
  import opened Ranges
  import opened ShardLog
  import opened CampaignStage

  // ---------------------------------------------------------------- shards of a pool

  /** Position j of the pool goes to shard j mod n and to no other. */
  lemma ResiduesPartition(total: int, n: int, j: int, k: int)
    requires n > 0 && 0 <= j < total && 0 <= k < n
    ensures j in Range(k, total, n) <==> k == j % n
  {
    RangeMembers(k, total, n, j);
    SameResidue(j, k, n);
  }

  /** The documents shard k of n runs. */
  function ShardOf(pool: seq<int>, k: int, n: int): seq<int>
    requires 0 <= k < n
  {
    RangeIncreasing(k, |pool|, n);
    var js := Range(k, |pool|, n);
    seq(|js|, i requires 0 <= i < |js| => pool[js[i]])
  }

  lemma ShardOfMembers(pool: seq<int>, k: int, n: int)
    requires 0 <= k < n && NoRepeats(pool)
    ensures NoRepeats(ShardOf(pool, k, n))
    ensures forall j :: 0 <= j < |pool| ==> (pool[j] in ShardOf(pool, k, n) <==> k == j % n)
    ensures forall d :: d in ShardOf(pool, k, n) ==> d in pool
  {
    var js := Range(k, |pool|, n);
    RangeIncreasing(k, |pool|, n);
    forall j | 0 <= j < |pool| ensures pool[j] in ShardOf(pool, k, n) <==> k == j % n {
      ResiduesPartition(|pool|, n, j, k);
      if j in js {
        var i :| 0 <= i < |js| && js[i] == j;
        assert ShardOf(pool, k, n)[i] == pool[j];
      }
      if pool[j] in ShardOf(pool, k, n) {
        var i :| 0 <= i < |js| && ShardOf(pool, k, n)[i] == pool[j];
        assert js[i] == j;
      }
    }
  }

  // ---------------------------------------------------------------- merging

  datatype Header = Header(ident: string, nDocuments: int, indices: seq<int>, planned: Option<seq<int>>)

  datatype Shard = Shard(header: Header, rows: seq<Row>)

  function Got(s: Shard): set<int> {
    set r | r in s.rows :: r.index
  }

  function Covered(shards: seq<Shard>): set<int> {
    if shards == [] then {} else Covered(shards[..|shards| - 1]) + ToSet(shards[|shards| - 1].header.indices)
  }

  function AllRows(shards: seq<Shard>): seq<Row> {
    if shards == [] then [] else AllRows(shards[..|shards| - 1]) + shards[|shards| - 1].rows
  }

  /** The shard belongs to the run and holds exactly the documents it declares. */
  ghost predicate Whole(s: Shard, ident: string) {
    s.header.ident == ident && Got(s) == ToSet(s.header.indices)
  }

  /** No document is declared by two shards. */
  ghost predicate PairwiseDisjoint(shards: seq<Shard>) {
    forall i, j, d :: 0 <= i < j < |shards| && d in shards[i].header.indices ==> d !in shards[j].header.indices
  }

  /** Shards of one run, each whole, no document in two, together the planned documents. */
  ghost predicate Mergeable(shards: seq<Shard>) {
    && shards != []
    && (forall k :: 0 <= k < |shards| ==> Whole(shards[k], shards[0].header.ident))
    && PairwiseDisjoint(shards)
    && |Covered(shards)| == shards[0].header.nDocuments
    && (shards[0].header.planned.Some? ==> ToSet(shards[0].header.planned.value) <= Covered(shards))
  }

  lemma {:induction false} CoveredMembers(shards: seq<Shard>)
    ensures forall d :: d in Covered(shards) <==> exists k :: 0 <= k < |shards| && d in shards[k].header.indices
    ensures forall r :: r in AllRows(shards) <==> exists k :: 0 <= k < |shards| && r in shards[k].rows
  {
    if shards != [] {
      var n := |shards| - 1;
      CoveredMembers(shards[..n]);
      assert forall k :: 0 <= k < n ==> shards[..n][k] == shards[k];
      assert shards[..n] + [shards[n]] == shards;
      forall d ensures d in Covered(shards) <==> exists k :: 0 <= k < |shards| && d in shards[k].header.indices {
        if d in Covered(shards[..n]) {
          var k :| 0 <= k < n && d in shards[..n][k].header.indices;
          assert d in shards[k].header.indices;
        }
      }
      forall r ensures r in AllRows(shards) <==> exists k :: 0 <= k < |shards| && r in shards[k].rows {
        if r in AllRows(shards[..n]) {
          var k :| 0 <= k < n && r in shards[..n][k].rows;
          assert r in shards[k].rows;
        }
      }
    }
  }

  lemma DisjointStep(shards: seq<Shard>, k: nat)
    requires k < |shards| && PairwiseDisjoint(shards[..k])
    requires forall d :: d in shards[k].header.indices ==> d !in Covered(shards[..k])
    ensures PairwiseDisjoint(shards[..k + 1])
  {
    CoveredMembers(shards[..k]);
    forall j, d | 0 <= j < k && d in shards[j].header.indices ensures d !in shards[k].header.indices {
      assert d in shards[..k][j].header.indices;
      assert d in Covered(shards[..k]);
    }
    assert forall j :: 0 <= j < k ==> shards[..k + 1][j] == shards[..k][j];
  }

  lemma OverlapFound(shards: seq<Shard>, k: nat, d: int)
    requires k < |shards| && d in shards[k].header.indices && d in Covered(shards[..k])
    ensures !PairwiseDisjoint(shards)
  {
    CoveredMembers(shards[..k]);
    var j :| 0 <= j < k && d in shards[..k][j].header.indices;
    assert d in shards[j].header.indices;
  }

  /** What the loop has collected from the first k shards. */
  ghost predicate Collected(shards: seq<Shard>, k: nat, ident: string, keys: set<int>, rows: seq<Row>)
    requires k <= |shards|
  {
    && keys == Covered(shards[..k]) && rows == AllRows(shards[..k]) && PairwiseDisjoint(shards[..k])
    && forall i :: 0 <= i < k ==> Whole(shards[i], ident)
  }

  lemma CollectStep(shards: seq<Shard>, k: nat, ident: string, keys: set<int>, rows: seq<Row>)
    requires k < |shards| && Collected(shards, k, ident, keys, rows) && Whole(shards[k], ident)
    requires forall d :: d in shards[k].header.indices ==> d !in keys
    ensures Collected(shards, k + 1, ident, keys + ToSet(shards[k].header.indices), rows + shards[k].rows)
  {
    DisjointStep(shards, k);
    assert shards[..k + 1][..k] == shards[..k];
  }

  /** The loop over the shards: refused at the first stranger, unfinished or overlapping
      shard, and otherwise left with all their documents and rows. */
  method CollectShards(shards: seq<Shard>) returns (r: Result<seq<Row>>, covered: map<int, nat>)
    requires shards != []
    ensures r.Ok? <==>
      PairwiseDisjoint(shards) && forall k :: 0 <= k < |shards| ==> Whole(shards[k], shards[0].header.ident)
    ensures r.Ok? ==> covered.Keys == Covered(shards) && r.value == AllRows(shards)
  {
    var ident := shards[0].header.ident;
    covered := map[];
    var rows: seq<Row> := [];
    for k := 0 to |shards|
      invariant Collected(shards, k, ident, covered.Keys, rows)
    {
      var s := shards[k];
      if s.header.ident != ident {
        return Err("not the same run"), covered;
      }
      var want := ToSet(s.header.indices);
      if Got(s) != want {
        return Err("unfinished or holds strangers"), covered;
      }
      if exists d :: d in want && d in covered {
        ghost var d :| d in want && d in covered;
        OverlapFound(shards, k, d);
        return Err("a document is in two shards"), covered;
      }
      CollectStep(shards, k, ident, covered.Keys, rows);
      covered := covered + map i | i in want :: k;
      rows := rows + s.rows;
    }
    assert shards[..|shards|] == shards;
    r := Ok(rows);
  }

  /** Accepts exactly the mergeable shards, and answers their rows in index order. */
  method Merge(shards: seq<Shard>) returns (r: Result<seq<Row>>)
    ensures r.Ok? <==> Mergeable(shards)
    ensures r.Ok? ==> multiset(r.value) == multiset(AllRows(shards))
    ensures r.Ok? ==> forall i, j :: 0 <= i < j < |r.value| ==> r.value[i].index <= r.value[j].index
    ensures r.Ok? ==> r.value == SortBy(AllRows(shards), ByIndex)
  {
    if shards == [] {
      return Err("nothing to merge");
    }
    var rows, covered := CollectShards(shards);
    if rows.Err? {
      return rows;
    }
    assert |covered.Keys| == |covered|;
    var first := shards[0].header;
    var planned := if first.planned.Some? then ToSet(first.planned.value) else {};
    if !(planned <= covered.Keys) {
      return Err("shards leave gaps");
    }
    if |covered| != first.nDocuments {
      return Err("shards cover another number of documents");
    }
    SortKeeps(rows.value, ByIndex);
    SortSorts(rows.value, ByIndex);
    r := Ok(SortBy(rows.value, ByIndex));
    assert forall i, j :: 0 <= i < j < |r.value| ==> ByIndex(r.value[i], r.value[j]);
  }

  // ---------------------------------------------------------------- coverage

  lemma {:induction false} SetOfDistinct(s: seq<int>)
    requires NoRepeats(s)
    ensures |ToSet(s)| == |s|
  {
    if s != [] {
      SetOfDistinct(s[1..]);
      assert ToSet(s) == {s[0]} + ToSet(s[1..]);
      assert s[0] !in s[1..] by {
        assert forall j :: 0 < j < |s| ==> s[j] != s[0];
      }
    }
  }

  lemma SubsetOfSameSize(a: set<int>, b: set<int>)
    requires a <= b && |a| == |b|
    ensures a == b
  {
    assert b == a + (b - a);
    assert |b| == |a| + |b - a|;
  }

  /** Shards the merge accepts, all drawn from one pool without repeats. */
  ghost predicate DrawnFrom(shards: seq<Shard>, pool: seq<int>) {
    && Mergeable(shards) && NoRepeats(pool) && shards[0].header.nDocuments == |pool|
    && forall k :: 0 <= k < |shards| ==> ToSet(shards[k].header.indices) <= ToSet(pool)
  }

  /** A successful merge covers the pool and nothing else. In the screen stage no planned
      list is stored and the count alone forces it. */
  lemma MergeCoversPool(shards: seq<Shard>, pool: seq<int>)
    requires DrawnFrom(shards, pool)
    ensures Covered(shards) == ToSet(pool)
  {
    CoveredMembers(shards);
    forall d | d in Covered(shards) ensures d in ToSet(pool) {
      var k :| 0 <= k < |shards| && d in shards[k].header.indices;
      assert d in ToSet(shards[k].header.indices);
    }
    SetOfDistinct(pool);
    SubsetOfSameSize(Covered(shards), ToSet(pool));
  }

  ghost predicate OnlyIn(shards: seq<Shard>, d: int, k: int)
    requires 0 <= k < |shards|
  {
    && d in shards[k].header.indices
    && forall j :: 0 <= j < |shards| && d in shards[j].header.indices ==> j == k
  }

  /** Each document of the pool is in exactly one of the merged shards and has a row there. */
  lemma MergeCoversOnce(shards: seq<Shard>, pool: seq<int>, d: int)
    requires DrawnFrom(shards, pool) && d in pool
    ensures exists k :: 0 <= k < |shards| && OnlyIn(shards, d, k) && exists r :: r in shards[k].rows && r.index == d
  {
    MergeCoversPool(shards, pool);
    CoveredMembers(shards);
    assert d in ToSet(pool);
    var k :| 0 <= k < |shards| && d in shards[k].header.indices;
    assert OnlyIn(shards, d, k);
    assert Whole(shards[k], shards[0].header.ident);
    assert d in ToSet(shards[k].header.indices);
    assert d in Got(shards[k]);
    var r :| r in shards[k].rows && r.index == d;
  }

  // ---------------------------------------------------------------- confluence

  /** Every shard number 0..n-1 once, in some order. */
  ghost predicate Arrangement(order: seq<int>, n: int) {
    |order| == n && NoRepeats(order) && forall i :: 0 <= i < |order| ==> 0 <= order[i] < n
  }

  ghost function Below(n: nat): (s: set<int>)
    ensures |s| == n && forall k :: k in s <==> 0 <= k < n
  {
    if n == 0 then {} else Below(n - 1) + {n - 1}
  }

  lemma ArrangementHits(order: seq<int>, n: nat, k: int)
    requires Arrangement(order, n) && 0 <= k < n
    ensures k in order
  {
    SetOfDistinct(order);
    SubsetOfSameSize(ToSet(order), Below(n));
    assert k in ToSet(order);
  }

  /** A finished shard of the pool: its header, and a rearrangement of its own run's rows. */
  ghost predicate Finished(
    s: Shard, pool: seq<int>, k: int, n: int, work: int -> Row, ident: string, planned: Option<seq<int>>)
    requires 0 <= k < n
  {
    && s.header == Header(ident, |pool|, ShardOf(pool, k, n), planned)
    && multiset(s.rows) == multiset(RowsFor(work, ShardOf(pool, k, n)))
  }

  /** The rows of a finished shard are the work of its documents, each once. */
  lemma FinishedRows(
    s: Shard, pool: seq<int>, k: int, n: int, work: int -> Row, ident: string, planned: Option<seq<int>>)
    requires 0 <= k < n && NoRepeats(pool) && Labelled(work) && Finished(s, pool, k, n, work, ident, planned)
    ensures Honest(s, work) && Whole(s, ident)
  {
    var docs := ShardOf(pool, k, n);
    ShardOfMembers(pool, k, n);
    RowsForMembers(work, docs);
    SamePermutation(s.rows, RowsFor(work, docs));
    NoRepeatsKept(RowsFor(work, docs), s.rows);
    forall d | d in docs ensures d in Got(s) {
      assert work(d) in s.rows;
    }
    assert Got(s) == ToSet(docs);
  }

  /** The pool is dealt out to n shards, listed in any order. */
  ghost predicate Dealt(pool: seq<int>, n: nat, order: seq<int>, shards: seq<Shard>) {
    && n > 0 && NoRepeats(pool) && Arrangement(order, n) && |shards| == n
    && forall i :: 0 <= i < n ==> shards[i].header.indices == ShardOf(pool, order[i], n)
  }

  lemma DealtOnce(pool: seq<int>, n: nat, order: seq<int>, shards: seq<Shard>, d: int)
    requires Dealt(pool, n, order, shards) && d in pool
    ensures exists i :: 0 <= i < n && OnlyIn(shards, d, i)
  {
    var p :| 0 <= p < |pool| && pool[p] == d;
    ArrangementHits(order, n, p % n);
    var i :| 0 <= i < n && order[i] == p % n;
    forall j | 0 <= j < n ensures d in shards[j].header.indices <==> j == i {
      ShardOfMembers(pool, order[j], n);
    }
    assert OnlyIn(shards, d, i);
  }

  lemma DealtCovers(pool: seq<int>, n: nat, order: seq<int>, shards: seq<Shard>)
    requires Dealt(pool, n, order, shards)
    ensures PairwiseDisjoint(shards) && Covered(shards) == ToSet(pool)
  {
    CoveredMembers(shards);
    forall i, d | 0 <= i < n && d in shards[i].header.indices ensures d in pool {
      ShardOfMembers(pool, order[i], n);
    }
    forall d | d in pool ensures d in Covered(shards) {
      DealtOnce(pool, n, order, shards, d);
    }
    forall d ensures d in Covered(shards) <==> d in ToSet(pool) {
      if d in Covered(shards) {
        var k :| 0 <= k < n && d in shards[k].header.indices;
        assert d in pool;
      }
    }
    forall i, j, d | 0 <= i < j < n && d in shards[i].header.indices ensures d !in shards[j].header.indices {
      DealtOnce(pool, n, order, shards, d);
      var k :| 0 <= k < n && OnlyIn(shards, d, k);
    }
  }

  lemma {:induction false} AllRowsNoRepeats(shards: seq<Shard>)
    requires forall k :: 0 <= k < |shards| ==> NoRepeats(shards[k].rows)
    requires forall i, j, r :: 0 <= i < j < |shards| && r in shards[i].rows ==> r !in shards[j].rows
    ensures NoRepeats(AllRows(shards))
  {
    if shards != [] {
      var n := |shards| - 1;
      assert forall k :: 0 <= k < n ==> shards[..n][k] == shards[k];
      AllRowsNoRepeats(shards[..n]);
      CoveredMembers(shards[..n]);
      var a, b := AllRows(shards[..n]), shards[n].rows;
      forall i, j | 0 <= i < j < |a + b| ensures (a + b)[i] != (a + b)[j] {
        if i < |a| <= j {
          assert a[i] in a;
          var k :| 0 <= k < n && a[i] in shards[..n][k].rows;
          assert b[j - |a|] in b;
        }
      }
    }
  }

  /** Shards of one pool, each finished after whatever history of crashes and resumes, merge
      in any order into the rows of a single uninterrupted run, in index order. */
  lemma AnyOrderMerges(
    pool: seq<int>, n: nat, work: int -> Row, ident: string, planned: Option<seq<int>>, order: seq<int>,
    shards: seq<Shard>)
    requires n > 0 && NoRepeats(pool) && Labelled(work) && Arrangement(order, n) && |shards| == n
    requires planned == None || planned == Some(pool)
    requires forall i :: 0 <= i < n ==> Finished(shards[i], pool, order[i], n, work, ident, planned)
    ensures Mergeable(shards)
    ensures RunOf(SortBy(AllRows(shards), ByIndex), pool, work)
  {
    forall i | 0 <= i < n ensures Honest(shards[i], work) && Whole(shards[i], ident) {
      FinishedRows(shards[i], pool, order[i], n, work, ident, planned);
    }
    assert Finished(shards[0], pool, order[0], n, work, ident, planned);
    DealtCovers(pool, n, order, shards);
    SetOfDistinct(pool);
    CoveredMembers(shards);
    forall k | 0 <= k < n ensures ToSet(shards[k].header.indices) <= ToSet(pool) {
      forall d | d in shards[k].header.indices ensures d in ToSet(pool) {
        assert d in Covered(shards);
      }
    }
    MergeIsRunIff(shards, pool, work);
  }

  /** What `read_shard` finds once a shard, after the given sessions, has run to its end. */
  function FinalRows(
    c: Codec, header: string, id: string, docs: seq<int>, work: int -> Row, sessions: seq<Session>): seq<Row>
  {
    match Replay(c, header, id, docs, work, FileOf(c, header, []), sessions)
    case Err(_) => []
    case Ok(last) =>
      match Ran(c, id, docs, work, last, |docs|)
      case Err(_) => []
      case Ok(final) => ReadShard(c, final)
  }

  /** The whole campaign stage: however each shard was interrupted, whatever bytes each crash
      left, and in whatever order the shards are merged, the merge succeeds and its rows are
      those of one uninterrupted run over the pool. */
  lemma CampaignConfluent(
    c: Codec, pool: seq<int>, n: nat, work: int -> Row, ident: string, planned: Option<seq<int>>,
    headerOf: int -> string, idOf: int -> string, sessionsOf: int -> seq<Session>, order: seq<int>, shards: seq<Shard>)
    requires n > 0 && NoRepeats(pool) && Labelled(work) && Lossless(c) && Arrangement(order, n) && |shards| == n
    requires planned == None || planned == Some(pool)
    requires forall k :: OneLine(headerOf(k)) && c.ident(headerOf(k)) == Some(idOf(k))
    requires forall i :: 0 <= i < n ==>
      var k := order[i];
      shards[i] == Shard(
        Header(ident, |pool|, ShardOf(pool, k, n), planned),
        FinalRows(c, headerOf(k), idOf(k), ShardOf(pool, k, n), work, sessionsOf(k)))
    ensures Mergeable(shards)
    ensures RunOf(SortBy(AllRows(shards), ByIndex), pool, work)
  {
    forall i | 0 <= i < n ensures Finished(shards[i], pool, order[i], n, work, ident, planned) {
      var k := order[i];
      ShardOfMembers(pool, k, n);
      assert OneLine(headerOf(k)) && c.ident(headerOf(k)) == Some(idOf(k));
      var last, final := HistoryConfluent(c, headerOf(k), idOf(k), ShardOf(pool, k, n), work, sessionsOf(k));
    }
    AnyOrderMerges(pool, n, work, ident, planned, order, shards);
  }

  // ---------------------------------------------------------------- what the merge does not check

  lemma {:induction false} PartNoRepeats(shards: seq<Shard>, k: nat)
    requires k < |shards| && NoRepeats(AllRows(shards))
    ensures NoRepeats(shards[k].rows)
    decreases |shards|
  {
    var n := |shards| - 1;
    NoRepeatsSplit(AllRows(shards[..n]), shards[n].rows);
    if k < n {
      PartNoRepeats(shards[..n], k);
    }
  }

  /** A shard each of whose rows is its document's own work, none twice. */
  ghost predicate Honest(s: Shard, work: int -> Row) {
    NoRepeats(s.rows) && forall r :: r in s.rows ==> r == work(r.index)
  }

  lemma HonestMerge(shards: seq<Shard>, pool: seq<int>, work: int -> Row)
    requires DrawnFrom(shards, pool) && Labelled(work)
    requires forall k :: 0 <= k < |shards| ==> Honest(shards[k], work)
    ensures multiset(AllRows(shards)) == multiset(RowsFor(work, pool))
  {
    CoveredMembers(shards);
    MergeCoversPool(shards, pool);
    forall i, j, r | 0 <= i < j < |shards| && r in shards[i].rows ensures r !in shards[j].rows {
      RowInDeclared(shards, i, r);
      if r in shards[j].rows {
        RowInDeclared(shards, j, r);
      }
    }
    AllRowsNoRepeats(shards);
    forall r | r in AllRows(shards) ensures r == work(r.index) && r.index in pool {
      var k :| 0 <= k < |shards| && r in shards[k].rows;
      assert Honest(shards[k], work);
      RowInDeclared(shards, k, r);
      assert r.index in Covered(shards) && r.index in ToSet(pool);
    }
    forall d | d in pool ensures work(d) in AllRows(shards) {
      MergeCoversOnce(shards, pool, d);
      var k :| 0 <= k < |shards| && OnlyIn(shards, d, k) && exists r :: r in shards[k].rows && r.index == d;
      var r :| r in shards[k].rows && r.index == d;
      assert Honest(shards[k], work);
    }
    PermutedRows(AllRows(shards), pool, work);
  }

  lemma RowInDeclared(shards: seq<Shard>, k: nat, r: Row)
    requires Mergeable(shards) && k < |shards| && r in shards[k].rows
    ensures r.index in shards[k].header.indices
  {
    assert Whole(shards[k], shards[0].header.ident);
    assert r.index in Got(shards[k]);
    assert r.index in ToSet(shards[k].header.indices);
  }

  lemma EqualRunHonest(shards: seq<Shard>, pool: seq<int>, work: int -> Row, k: nat)
    requires NoRepeats(pool) && Labelled(work) && k < |shards|
    requires multiset(AllRows(shards)) == multiset(RowsFor(work, pool))
    ensures Honest(shards[k], work)
  {
    RowsForMembers(work, pool);
    NoRepeatsKept(RowsFor(work, pool), AllRows(shards));
    PartNoRepeats(shards, k);
    SamePermutation(AllRows(shards), RowsFor(work, pool));
    CoveredMembers(shards);
  }

  /** The merge compares index sets only. What it accepts is the uninterrupted run of the pool
      exactly when every shard holds its documents' own rows, each once. */
  lemma MergeIsRunIff(shards: seq<Shard>, pool: seq<int>, work: int -> Row)
    requires DrawnFrom(shards, pool) && Labelled(work)
    ensures RunOf(SortBy(AllRows(shards), ByIndex), pool, work) <==>
            forall k :: 0 <= k < |shards| ==> Honest(shards[k], work)
  {
    var rows, all := AllRows(shards), RowsFor(work, pool);
    SortKeeps(rows, ByIndex);
    SortKeeps(all, ByIndex);
    if RunOf(SortBy(rows, ByIndex), pool, work) {
      SortedIsRun(all, pool, work);
      RunOfUnique(SortBy(rows, ByIndex), SortBy(all, ByIndex), pool, work);
      forall k | 0 <= k < |shards| ensures Honest(shards[k], work) {
        EqualRunHonest(shards, pool, work, k);
      }
    }
    if forall k :: 0 <= k < |shards| ==> Honest(shards[k], work) {
      HonestMerge(shards, pool, work);
      SortedIsRun(rows, pool, work);
    }
  }

  /** A hand-made shard that holds its one row twice is accepted, and is not such a run. */
  lemma RepeatedRowAccepted(work: int -> Row, ident: string)
    requires Labelled(work)
    ensures var s := Shard(Header(ident, 1, [0], None), [work(0), work(0)]);
            DrawnFrom([s], [0]) && !RunOf(SortBy(AllRows([s]), ByIndex), [0], work)
  {
    var s := Shard(Header(ident, 1, [0], None), [work(0), work(0)]);
    CoveredMembers([s]);
    var rows := s.rows;
    assert rows[0] in rows && rows[0].index == 0;
    assert Got(s) == {0} == ToSet([0]);
    assert [s][0].header.indices == [0];
    assert Covered([s]) == {0};
    assert rows[0] == rows[1];
    assert !NoRepeats(rows);
    assert !Honest([s][0], work);
    MergeIsRunIff([s], [0], work);
  }

  // ---------------------------------------------------------------- a campaign on disks

  /** `read_shard` with its header, which `decode` reads from the first line. */
  function ReadWhole(c: Codec, decode: string -> Option<Header>, raw: string): Option<Shard> {
    var lines := SplitLines(raw);
    if lines == [] || decode(lines[0]).None? then None
    else Some(Shard(decode(lines[0]).value, ReadRows(c, lines[1..])))
  }

  lemma ReadWholeFile(c: Codec, decode: string -> Option<Header>, header: string, rows: seq<Row>)
    requires Lossless(c) && OneLine(header) && decode(header).Some?
    ensures ReadWhole(c, decode, FileOf(c, header, rows)) == Some(Shard(decode(header).value, rows))
  {
    var lines := [header] + Lines(c, rows);
    SplitText(lines);
    assert lines[1..] == Lines(c, rows);
    ReadLines(c, rows);
  }

  /** One stage of a campaign over a pool, its rows, and the header line and identity of each
      of its n shards. */
  datatype Plan = Plan(
    codec: Codec, decode: string -> Option<Header>, pool: seq<int>, n: nat, work: int -> Row, ident: string,
    planned: Option<seq<int>>, headerOf: int -> string, idOf: int -> string)

  ghost predicate Sane(p: Plan) {
    && p.n > 0 && NoRepeats(p.pool) && Labelled(p.work) && Lossless(p.codec)
    && (p.planned == None || p.planned == Some(p.pool))
    && (forall k :: 0 <= k < p.n ==>
          && OneLine(p.headerOf(k)) && p.codec.ident(p.headerOf(k)) == Some(p.idOf(k))
          && p.decode(p.headerOf(k)) == Some(Header(p.ident, |p.pool|, ShardOf(p.pool, k, p.n), p.planned)))
  }

  lemma ShardSetting(p: Plan, k: int)
    requires Sane(p) && 0 <= k < p.n
    ensures Setting(p.codec, p.headerOf(k), p.idOf(k), ShardOf(p.pool, k, p.n), p.work)
  {
    ShardOfMembers(p.pool, k, p.n);
  }

  /** The bytes are shard k of the plan, whole. */
  ghost predicate ShardDone(p: Plan, k: int, bytes: string)
    requires 0 <= k < p.n
  {
    HoldsAll(p.codec, p.headerOf(k), ShardOf(p.pool, k, p.n), p.work, bytes)
  }

  lemma DoneReadsFinished(p: Plan, k: int, bytes: string)
    requires Sane(p) && 0 <= k < p.n && ShardDone(p, k, bytes)
    ensures var s := ReadWhole(p.codec, p.decode, bytes);
            s.Some? && Finished(s.value, p.pool, k, p.n, p.work, p.ident, p.planned)
  {
    var header := p.headerOf(k);
    var log :| bytes == FileOf(p.codec, header, log)
               && multiset(log) == multiset(RowsFor(p.work, ShardOf(p.pool, k, p.n)));
    assert OneLine(header) && p.decode(header).Some?;
    ReadWholeFile(p.codec, p.decode, header, log);
  }

  /** Every shard's processes, on a disk of its own. */
  method RunShards(p: Plan, disks: seq<Disk>, order: seq<int>, lives: seq<seq<Process>>)
    returns (last: seq<Option<Outcome>>)
    requires Sane(p) && Arrangement(order, p.n) && |disks| == |lives| == p.n && NoRepeats(disks)
    requires forall i :: 0 <= i < |disks| ==> !disks[i].present
    modifies set d | d in disks
    ensures |last| == p.n
    ensures forall i :: 0 <= i < p.n && last[i] == Some(Done) ==> ShardDone(p, order[i], disks[i].bytes)
  {
    last := [];
    for i := 0 to p.n
      invariant |last| == i
      invariant forall j :: i <= j < p.n ==> !disks[j].present
      invariant forall j :: 0 <= j < i && last[j] == Some(Done) ==> ShardDone(p, order[j], disks[j].bytes)
    {
      var o := RunShard(p, disks[i], order[i], lives[i]);
      last := last + [o];
    }
  }

  method RunShard(p: Plan, disk: Disk, k: int, ps: seq<Process>) returns (last: Option<Outcome>)
    requires Sane(p) && 0 <= k < p.n && !disk.present
    modifies disk
    ensures last == Some(Done) ==> ShardDone(p, k, disk.bytes)
  {
    ShardSetting(p, k);
    ghost var sessions: seq<Session>;
    last, sessions := RunProcesses(
      disk, p.codec, p.headerOf(k), p.idOf(k), ShardOf(p.pool, k, p.n), p.work, ps);
  }

  method ReadShards(p: Plan, disks: seq<Disk>, ghost order: seq<int>) returns (shards: seq<Shard>)
    requires Sane(p) && Arrangement(order, p.n) && |disks| == p.n
    requires forall i :: 0 <= i < p.n ==> ShardDone(p, order[i], disks[i].bytes)
    ensures |shards| == p.n
    ensures forall i :: 0 <= i < p.n ==> Finished(shards[i], p.pool, order[i], p.n, p.work, p.ident, p.planned)
  {
    shards := [];
    for i := 0 to p.n
      invariant |shards| == i
      invariant forall j :: 0 <= j < i ==> Finished(shards[j], p.pool, order[j], p.n, p.work, p.ident, p.planned)
    {
      DoneReadsFinished(p, order[i], disks[i].bytes);
      var s := ReadWhole(p.codec, p.decode, disks[i].bytes);
      shards := shards + [s.value];
    }
  }

  /** A stage on its disks, from nothing to the merge: each shard lives through its own
      processes, killed at whatever byte; once all report that they are done, merging the files
      they left, in any order, answers the rows of one uninterrupted run over the pool. */
  method RunCampaign(p: Plan, disks: seq<Disk>, order: seq<int>, lives: seq<seq<Process>>)
    returns (last: seq<Option<Outcome>>, merged: Option<Result<seq<Row>>>)
    requires Sane(p) && Arrangement(order, p.n) && |disks| == |lives| == p.n && NoRepeats(disks)
    requires forall i :: 0 <= i < |disks| ==> !disks[i].present
    modifies set d | d in disks
    ensures |last| == p.n
    ensures merged.Some? <==> forall i :: 0 <= i < p.n ==> last[i] == Some(Done)
    ensures merged.Some? ==> merged.value.Ok? && RunOf(merged.value.value, p.pool, p.work)
  {
    last := RunShards(p, disks, order, lives);
    if exists i :: 0 <= i < p.n && last[i] != Some(Done) {
      return last, None;
    }
    var shards := ReadShards(p, disks, order);
    AnyOrderMerges(p.pool, p.n, p.work, p.ident, p.planned, order, shards);
    var rows := Merge(shards);
    merged := Some(rows);
  }
}
