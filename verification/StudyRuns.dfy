/** The checkpoint loop of `scripts/gate_power_study.py`, and of both stages of
    `scripts/pooled_universe_study.py`: rows are a function of the injected Sharpe ratio and
    the replicate; the output file is replaced atomically, so a killed run leaves its last
    checkpoint. A main-stage row, which carries a candidate index and no ratio, is a row at a
    grid of one ratio. */
module StudyRuns {
  import opened Sequences
  import opened Ranges

  datatype Row = Row(sr: real, replicate: int, body: string)

  /** One ladder run, given the injected ratio and the replicate. */
  type Engine = (real, int) -> Row

  ghost predicate Labelled(e: Engine) {
    forall s: real, i: int :: e(s, i).sr == s && e(s, i).replicate == i
  }

  /** The position of a ratio in the grid. */
  function Rank(srs: seq<real>, s: real): nat {
    if srs == [] || srs[0] == s then 0 else 1 + Rank(srs[1..], s)
  }

  predicate Before(srs: seq<real>, a: Row, b: Row) {
    var p, q := Rank(srs, a.sr), Rank(srs, b.sr);
    p < q || (p == q && a.replicate <= b.replicate)
  }

  /** `key=lambda r: (order[r["sr"]], r["replicate"])`. */
  function ByCell(srs: seq<real>): (Row, Row) -> bool {
    (a: Row, b: Row) => Before(srs, a, b)
  }

  lemma {:induction false} RankAt(srs: seq<real>, k: nat)
    requires NoRepeats(srs) && k < |srs|
    ensures Rank(srs, srs[k]) == k
  {
    if k > 0 {
      RankAt(srs[1..], k - 1);
    }
  }

  /** Exactly the rows of the given replicates at every ratio of the grid, each once. */
  ghost predicate Cells(rows: seq<Row>, e: Engine, srs: seq<real>, reps: set<int>) {
    && NoRepeats(rows)
    && forall r :: r in rows <==> r == e(r.sr, r.replicate) && r.sr in srs && r.replicate in reps
  }

  /** What one uninterrupted run prints: ratio by ratio, replicate by replicate. */
  function Canonical(e: Engine, srs: seq<real>, idx: seq<int>): seq<Row> {
    if srs == [] then [] else RowsAt(e, srs[0], idx) + Canonical(e, srs[1..], idx)
  }

  function RowsAt(e: Engine, s: real, idx: seq<int>): seq<Row> {
    seq(|idx|, i requires 0 <= i < |idx| => e(s, idx[i]))
  }

  lemma RowsAtMembers(e: Engine, s: real, idx: seq<int>)
    requires Labelled(e) && Increasing(idx)
    ensures forall r :: r in RowsAt(e, s, idx) <==> r == e(s, r.replicate) && r.replicate in idx
    ensures NoRepeats(RowsAt(e, s, idx))
  {
    var rows := RowsAt(e, s, idx);
    forall r ensures r in rows <==> r == e(s, r.replicate) && r.replicate in idx {
      if r in rows {
        var i :| 0 <= i < |rows| && rows[i] == r;
        assert r == e(s, idx[i]) && idx[i] in idx;
        assert r.replicate == idx[i];
      }
      if r == e(s, r.replicate) && r.replicate in idx {
        var i :| 0 <= i < |idx| && idx[i] == r.replicate;
        assert rows[i] == e(s, idx[i]) == r;
      }
    }
    forall i, j | 0 <= i < j < |rows| ensures rows[i] != rows[j] {
      assert rows[i].replicate == idx[i] && rows[j].replicate == idx[j];
    }
  }

  lemma {:induction false} CanonicalMembers(e: Engine, srs: seq<real>, idx: seq<int>)
    requires Labelled(e) && NoRepeats(srs) && Increasing(idx)
    ensures forall r :: r in Canonical(e, srs, idx) <==>
              r == e(r.sr, r.replicate) && r.sr in srs && r.replicate in idx
    ensures NoRepeats(Canonical(e, srs, idx))
  {
    if srs != [] {
      var s, rest := srs[0], srs[1..];
      CanonicalMembers(e, rest, idx);
      RowsAtMembers(e, s, idx);
      assert srs == [s] + rest;
      assert s !in rest by {
        assert forall j :: 0 < j < |srs| ==> srs[j] != srs[0];
      }
      var a, b := RowsAt(e, s, idx), Canonical(e, rest, idx);
      forall i, j | 0 <= i < j < |a + b| ensures (a + b)[i] != (a + b)[j] {
        if i < |a| <= j {
          assert a[i] in a && b[j - |a|] in b;
        }
      }
    }
  }

  lemma {:induction false} CanonicalSortedFrom(e: Engine, grid: seq<real>, k: nat, idx: seq<int>)
    requires Labelled(e) && NoRepeats(grid) && k <= |grid| && Increasing(idx)
    ensures SortedBy(Canonical(e, grid[k..], idx), ByCell(grid))
    decreases |grid| - k
  {
    var srs := grid[k..];
    if k < |grid| {
      CanonicalSortedFrom(e, grid, k + 1, idx);
      assert srs[1..] == grid[k + 1..];
      var a, b := RowsAt(e, srs[0], idx), Canonical(e, srs[1..], idx);
      RankAt(grid, k);
      CanonicalMembers(e, srs[1..], idx);
      forall i, j | 0 <= i < j < |a + b| ensures ByCell(grid)((a + b)[i], (a + b)[j]) {
        if i < |a| <= j {
          assert b[j - |a|] in b;
          var p :| 0 <= p < |srs[1..]| && srs[1..][p] == b[j - |a|].sr;
          RankAt(grid, k + 1 + p);
        }
      }
    }
  }

  /** Sorted rows of a whole index list are the uninterrupted run's, whatever order they came
      in. */
  lemma SortedCellsCanonical(rows: seq<Row>, e: Engine, srs: seq<real>, idx: seq<int>, reps: set<int>)
    requires Labelled(e) && NoRepeats(srs) && Cells(rows, e, srs, reps) && Increasing(idx)
    requires forall i :: i in reps <==> i in idx
    ensures SortBy(rows, ByCell(srs)) == Canonical(e, srs, idx)
  {
    var all, le := Canonical(e, srs, idx), ByCell(srs);
    CanonicalMembers(e, srs, idx);
    assert srs[0..] == srs;
    CanonicalSortedFrom(e, srs, 0, idx);
    SameElements(rows, all);
    SortSorts(rows, le);
    SortKeeps(rows, le);
    CellsSeparated(all, e, srs);
    SortedUnique(all, SortBy(rows, le), le);
  }

  lemma RankInjective(srs: seq<real>, s: real, t: real)
    requires NoRepeats(srs) && s in srs && t in srs && Rank(srs, s) == Rank(srs, t)
    ensures s == t
  {
    var i :| 0 <= i < |srs| && srs[i] == s;
    var j :| 0 <= j < |srs| && srs[j] == t;
    RankAt(srs, i);
    RankAt(srs, j);
  }

  lemma CellsSeparated(rows: seq<Row>, e: Engine, srs: seq<real>)
    requires NoRepeats(srs) && forall r :: r in rows ==> r == e(r.sr, r.replicate) && r.sr in srs
    ensures Separates(rows, ByCell(srs))
  {
    forall i, j | 0 <= i < |rows| && 0 <= j < |rows| && Before(srs, rows[i], rows[j]) && Before(srs, rows[j], rows[i])
      ensures rows[i] == rows[j]
    {
      assert rows[i] in rows && rows[j] in rows;
      RankInjective(srs, rows[i].sr, rows[j].sr);
    }
  }

  // ---------------------------------------------------------------- checkpoints

  /** What a shard declares: a range, or the residue class k, k + n, ... below `of`. */
  datatype ShardSpec = Span(start: int, end: int) | Residue(k: int, n: int, of: int)

  /** Python refuses a step of zero. */
  predicate Stepping(s: ShardSpec) {
    s.Residue? ==> s.n != 0
  }

  /** The indices a shard declares, in the order `range` gives them. */
  function Indices(s: ShardSpec): seq<int> {
    match s
    case Span(start, end) => Range(start, end, 1)
    case Residue(k, n, of) => if n == 0 then [] else Range(k, of, n)
  }

  /** The shards a process can be asked to run: `--shard K N` needs 0 <= K < N. */
  predicate Forward(s: ShardSpec) {
    s.Residue? ==> s.n > 0
  }

  lemma ForwardIncreasing(s: ShardSpec)
    requires Forward(s)
    ensures Increasing(Indices(s))
  {
    match s
    case Span(start, end) => RangeIncreasing(start, end, 1);
    case Residue(k, n, of) => RangeIncreasing(k, of, n);
  }

  /** The output file: whose run it is, the shard it is for, and its rows. */
  datatype Doc = Doc(ident: string, shard: ShardSpec, partial: bool, runs: seq<Row>)

  /** The run a process is asked for. `eager` is the main stage, which may also write a
      checkpoint after its last index. */
  datatype Header = Header(ident: string, srs: seq<real>, shard: ShardSpec, eager: bool)

  function Replicates(rows: seq<Row>): set<int> {
    set r | r in rows :: r.replicate
  }

  function RatiosAt(rows: seq<Row>, rep: int): set<real> {
    set r | r in rows && r.replicate == rep :: r.sr
  }

  function Grid(srs: seq<real>): set<real> {
    set s | s in srs
  }

  /** `_resume_rows`: a checkpoint of another run or another shard is refused, and so is one
      that holds a replicate without all its ratios. */
  function ResumeRows(file: Option<Doc>, h: Header): Result<seq<Row>> {
    if file.None? then Ok([])
    else
      var d := file.value;
      if d.ident != h.ident then Err("produced by a different run")
      else if d.shard != h.shard then Err("covers other replicates")
      else if exists i :: i in Replicates(d.runs) && RatiosAt(d.runs, i) != Grid(h.srs) then
        Err("holds incomplete replicates")
      else Ok(d.runs)
  }

  /** Some row is of replicate i at ratio s. */
  ghost predicate RowAt(rows: seq<Row>, i: int, s: real) {
    exists q :: q in rows && q.replicate == i && q.sr == s
  }

  /** A checkpoint of this very run and shard, whose every row is at a ratio of the grid and
      whose every replicate has a row at each of them. */
  ghost predicate Continues(d: Doc, h: Header) {
    && d.ident == h.ident && d.shard == h.shard
    && (forall r :: r in d.runs ==> r.sr in h.srs)
    && (forall r, s :: r in d.runs && s in h.srs ==> RowAt(d.runs, r.replicate, s))
  }

  lemma RatiosAtMembers(rows: seq<Row>, i: int, s: real)
    ensures s in RatiosAt(rows, i) <==> RowAt(rows, i, s)
  {
  }

  /** Each replicate of the rows has exactly the ratios of the grid. */
  ghost predicate GridAtEach(rows: seq<Row>, srs: seq<real>) {
    forall i :: i in Replicates(rows) ==> RatiosAt(rows, i) == Grid(srs)
  }

  lemma GridAtRow(rows: seq<Row>, srs: seq<real>, r: Row)
    requires GridAtEach(rows, srs) && r in rows
    ensures r.sr in srs && forall s :: s in srs ==> RowAt(rows, r.replicate, s)
  {
    assert r.replicate in Replicates(rows);
    var at := RatiosAt(rows, r.replicate);
    assert r.sr in at && at == Grid(srs);
    forall s | s in srs ensures RowAt(rows, r.replicate, s) {
      assert s in at;
    }
  }

  lemma GridAtReplicate(rows: seq<Row>, srs: seq<real>, i: int)
    requires forall r :: r in rows ==> r.sr in srs
    requires forall s :: s in srs ==> RowAt(rows, i, s)
    ensures RatiosAt(rows, i) == Grid(srs)
  {
    forall s ensures s in RatiosAt(rows, i) <==> s in Grid(srs) {
      RatiosAtMembers(rows, i, s);
    }
  }

  /** A checkpoint of this run and shard continues it exactly when that holds of its rows. */
  lemma WholeReplicatesIff(d: Doc, h: Header)
    requires d.ident == h.ident && d.shard == h.shard
    ensures Continues(d, h) <==> GridAtEach(d.runs, h.srs)
  {
    if GridAtEach(d.runs, h.srs) {
      forall r | r in d.runs ensures r.sr in h.srs && forall s :: s in h.srs ==> RowAt(d.runs, r.replicate, s) {
        GridAtRow(d.runs, h.srs, r);
      }
    }
    if Continues(d, h) {
      forall i | i in Replicates(d.runs) ensures RatiosAt(d.runs, i) == Grid(h.srs) {
        var r :| r in d.runs && r.replicate == i;
        GridAtReplicate(d.runs, h.srs, i);
      }
    }
  }

  /** The resume check accepts exactly the checkpoints that continue the run, and then takes
      all their rows. */
  lemma ResumeRowsIff(d: Doc, h: Header)
    ensures ResumeRows(Some(d), h).Ok? <==> Continues(d, h)
    ensures Continues(d, h) ==> ResumeRows(Some(d), h) == Ok(d.runs)
  {
    if d.ident == h.ident && d.shard == h.shard {
      WholeReplicatesIff(d, h);
    }
  }

  function Todo(idx: seq<int>, done: set<int>): seq<int> {
    if idx == [] then [] else (if idx[0] in done then [] else [idx[0]]) + Todo(idx[1..], done)
  }

  /** One replicate at every ratio. */
  function ReplicateRows(e: Engine, srs: seq<real>, i: int): (rows: seq<Row>)
    ensures |rows| == |srs|
  {
    seq(|srs|, k requires 0 <= k < |srs| => e(srs[k], i))
  }

  /** The rows once k replicates of the list have been run, sorted after each. */
  function RowsAfter(e: Engine, srs: seq<real>, rows: seq<Row>, todo: seq<int>, k: nat): seq<Row>
    requires k <= |todo|
  {
    if k == 0 then rows
    else SortBy(RowsAfter(e, srs, rows, todo, k - 1) + ReplicateRows(e, srs, todo[k - 1]), ByCell(srs))
  }

  /** The file once k replicates have been run: the last checkpoint that was due. Unless the
      loop is eager none is written after the last replicate; the final result is. */
  function FileAfter(
    e: Engine, h: Header, file: Option<Doc>, rows: seq<Row>, todo: seq<int>, due: nat -> bool, k: nat): Option<Doc>
    requires k <= |todo|
  {
    if k == 0 then file
    else if (h.eager || k < |todo|) && due(k - 1) then
      Some(Doc(h.ident, h.shard, true, RowsAfter(e, h.srs, rows, todo, k)))
    else FileAfter(e, h, file, rows, todo, due, k - 1)
  }

  /** One process: with or without --resume, killed once it has run that many replicates (or
      all it had, before the result is written) or running to its end; `due` says after which
      replicates a checkpoint was due. */
  datatype Session = Session(resume: bool, killedAfter: Option<nat>, due: nat -> bool)

  function Least(a: nat, b: nat): nat { if a < b then a else b }

  function AfterSession(e: Engine, h: Header, file: Option<Doc>, s: Session): Result<Option<Doc>> {
    match (if s.resume then ResumeRows(file, h) else Ok([]))
    case Err(error) => Err(error)
    case Ok(rows) =>
      var todo := Todo(Indices(h.shard), Replicates(rows));
      if s.killedAfter.Some? then
        Ok(FileAfter(e, h, file, rows, todo, s.due, Least(s.killedAfter.value, |todo|)))
      else
        Ok(Some(Doc(h.ident, h.shard, false, SortBy(RowsAfter(e, h.srs, rows, todo, |todo|), ByCell(h.srs)))))
  }

  function Replay(e: Engine, h: Header, file: Option<Doc>, sessions: seq<Session>): Result<Option<Doc>>
    decreases |sessions|
  {
    if sessions == [] then Ok(file)
    else
      match AfterSession(e, h, file, sessions[0])
      case Err(error) => Err(error)
      case Ok(next) => Replay(e, h, next, sessions[1..])
  }

  class OutFile {
    var doc: Option<Doc>
  }

  /** The loop of `main`, checkpoint by checkpoint. */
  method RunSession(out: OutFile, e: Engine, h: Header, s: Session) returns (r: Result<()>)
    modifies out
    ensures r.Err? <==> s.resume && old(out.doc).Some? && !Continues(old(out.doc).value, h)
    ensures r.Ok? ==> Ok(out.doc) == AfterSession(e, h, old(out.doc), s)
    ensures r.Err? ==> out.doc == old(out.doc)
  {
    var prior := if s.resume then ResumeRows(out.doc, h) else Ok([]);
    if out.doc.Some? {
      ResumeRowsIff(out.doc.value, h);
    }
    if prior.Err? {
      return Err(prior.error);
    }
    var rows := prior.value;
    var todo := Todo(Indices(h.shard), Replicates(rows));
    for k := 0 to |todo|
      invariant s.killedAfter.Some? ==> k <= s.killedAfter.value
      invariant rows == RowsAfter(e, h.srs, prior.value, todo, k)
      invariant out.doc == FileAfter(e, h, old(out.doc), prior.value, todo, s.due, k)
    {
      if s.killedAfter == Some(k) {
        return Ok(());
      }
      rows := SortBy(rows + ReplicateRows(e, h.srs, todo[k]), ByCell(h.srs));
      if (h.eager || k + 1 < |todo|) && s.due(k) {
        out.doc := Some(Doc(h.ident, h.shard, true, rows));
      }
    }
    if s.killedAfter.Some? {
      return Ok(());
    }
    out.doc := Some(Doc(h.ident, h.shard, false, SortBy(rows, ByCell(h.srs))));
    r := Ok(());
  }

  // ---------------------------------------------------------------- what a file always is

  /** A file of this run: whole replicates of its own shard, each row once. */
  ghost predicate Checkpoint(file: Option<Doc>, e: Engine, h: Header) {
    file.Some? ==>
      && file.value.ident == h.ident && file.value.shard == h.shard
      && exists reps: set<int> :: WholeReplicates(file.value.runs, e, h, reps)
  }

  ghost predicate WholeReplicates(rows: seq<Row>, e: Engine, h: Header, reps: set<int>) {
    Cells(rows, e, h.srs, reps) && forall i :: i in reps ==> i in Indices(h.shard)
  }

  /** Every checkpoint the loop writes is accepted by the resume check. */
  lemma ResumeAccepts(file: Option<Doc>, e: Engine, h: Header)
    requires Labelled(e) && Checkpoint(file, e, h)
    ensures ResumeRows(file, h).Ok?
    ensures exists reps: set<int> :: WholeReplicates(ResumeRows(file, h).value, e, h, reps)
                                     && (h.srs != [] ==> Replicates(ResumeRows(file, h).value) == reps)
  {
    if file.None? {
      assert WholeReplicates([], e, h, {});
      assert Replicates([]) == {};
    } else {
      var rows := file.value.runs;
      var reps: set<int> :| WholeReplicates(rows, e, h, reps);
      forall i | i in Replicates(rows) ensures RatiosAt(rows, i) == Grid(h.srs) {
        forall s | s in h.srs ensures s in RatiosAt(rows, i) {
          assert e(s, i) in rows;
        }
      }
      if h.srs != [] {
        forall i | i in reps ensures i in Replicates(rows) {
          var s := h.srs[0];
          assert s in h.srs;
          var r := e(s, i);
          assert r.sr == s && r.replicate == i;
          assert r in rows;
        }
        assert Replicates(rows) == reps;
      }
    }
  }

  /** What a process that runs to its end writes. */
  function FinalDoc(e: Engine, h: Header): Doc {
    Doc(h.ident, h.shard, false, Canonical(e, h.srs, Indices(h.shard)))
  }

  /** A process that runs to the end writes the uninterrupted run's rows, whatever checkpoint
      it resumed; one that is killed leaves a checkpoint the next can resume. */
  lemma SessionKeeps(e: Engine, h: Header, file: Option<Doc>, s: Session)
    requires Labelled(e) && h.srs != [] && NoRepeats(h.srs) && Forward(h.shard) && Checkpoint(file, e, h)
    ensures AfterSession(e, h, file, s).Ok? && Checkpoint(AfterSession(e, h, file, s).value, e, h)
    ensures s.killedAfter.None? ==> AfterSession(e, h, file, s).value == Some(FinalDoc(e, h))
  {
    ResumeAccepts(file, e, h);
    ResumeAccepts(None, e, h);
    var rows := (if s.resume then ResumeRows(file, h) else Ok([])).value;
    var reps: set<int> :| WholeReplicates(rows, e, h, reps) && Replicates(rows) == reps;
    var todo := Todo(Indices(h.shard), reps);
    if s.killedAfter.Some? {
      ForwardIncreasing(h.shard);
      TodoExactly(Indices(h.shard), reps);
      FileAfterCheckpoint(e, h, file, rows, reps, todo, s.due, Least(s.killedAfter.value, |todo|));
    } else {
      var all := RunToEnd(e, h, rows, reps);
    }
  }

  lemma {:induction false} HistoryKeeps(e: Engine, h: Header, file: Option<Doc>, sessions: seq<Session>)
    requires Labelled(e) && h.srs != [] && NoRepeats(h.srs) && Forward(h.shard) && Checkpoint(file, e, h)
    ensures Replay(e, h, file, sessions).Ok? && Checkpoint(Replay(e, h, file, sessions).value, e, h)
    decreases |sessions|
  {
    if sessions != [] {
      SessionKeeps(e, h, file, sessions[0]);
      HistoryKeeps(e, h, AfterSession(e, h, file, sessions[0]).value, sessions[1..]);
    }
  }

  /** After any history of kills and resumes from nothing, one more run to the end writes
      exactly what a single uninterrupted run would have written. */
  lemma HistoryConfluent(e: Engine, h: Header, sessions: seq<Session>, last: Session)
    requires Labelled(e) && h.srs != [] && NoRepeats(h.srs) && Forward(h.shard) && last.killedAfter.None?
    ensures Replay(e, h, None, sessions).Ok?
    ensures AfterSession(e, h, Replay(e, h, None, sessions).value, last) == Ok(Some(FinalDoc(e, h)))
  {
    HistoryKeeps(e, h, None, sessions);
    SessionKeeps(e, h, Replay(e, h, None, sessions).value, last);
  }

  // ---------------------------------------------------------------- how the rows grow

  lemma {:induction false} TodoExactly(idx: seq<int>, done: set<int>)
    requires Increasing(idx)
    ensures forall i :: i in Todo(idx, done) <==> i in idx && i !in done
    ensures NoRepeats(Todo(idx, done))
  {
    if idx != [] {
      TodoExactly(idx[1..], done);
      assert idx == [idx[0]] + idx[1..];
      assert forall j :: 0 < j < |idx| ==> idx[0] < idx[j];
      assert idx[0] !in idx[1..];
    }
  }

  lemma ReplicateRowsMembers(e: Engine, srs: seq<real>, i: int)
    requires Labelled(e) && NoRepeats(srs)
    ensures NoRepeats(ReplicateRows(e, srs, i))
    ensures forall r :: r in ReplicateRows(e, srs, i) <==> r == e(r.sr, r.replicate) && r.sr in srs && r.replicate == i
  {
    var rows := ReplicateRows(e, srs, i);
    forall j, k | 0 <= j < k < |rows| ensures rows[j] != rows[k] {
      assert rows[j].sr == srs[j] && rows[k].sr == srs[k];
    }
    forall r ensures r in rows <==> r == e(r.sr, r.replicate) && r.sr in srs && r.replicate == i {
      if r in rows {
        var k :| 0 <= k < |rows| && rows[k] == r;
        assert r == e(srs[k], i) && srs[k] in srs;
        assert r.sr == srs[k] && r.replicate == i;
      }
      if r == e(r.sr, r.replicate) && r.sr in srs && r.replicate == i {
        var k :| 0 <= k < |srs| && srs[k] == r.sr;
        assert rows[k] == e(srs[k], i) == r;
      }
    }
  }

  lemma CellsSorted(rows: seq<Row>, e: Engine, srs: seq<real>, reps: set<int>)
    requires Cells(rows, e, srs, reps)
    ensures Cells(SortBy(rows, ByCell(srs)), e, srs, reps)
  {
    SortKeeps(rows, ByCell(srs));
    NoRepeatsKept(rows, SortBy(rows, ByCell(srs)));
  }

  /** Running one more replicate adds exactly its rows. */
  lemma CellsGrow(rows: seq<Row>, e: Engine, srs: seq<real>, reps: set<int>, i: int)
    requires Labelled(e) && NoRepeats(srs) && Cells(rows, e, srs, reps) && i !in reps
    ensures Cells(rows + ReplicateRows(e, srs, i), e, srs, reps + {i})
  {
    ReplicateRowsMembers(e, srs, i);
    var a, b := rows, ReplicateRows(e, srs, i);
    forall j, k | 0 <= j < k < |a + b| ensures (a + b)[j] != (a + b)[k] {
      if j < |a| <= k {
        assert a[j] in a && b[k - |a|] in b;
      }
    }
  }

  function Elements(s: seq<int>): set<int> {
    set i | i in s
  }

  lemma OneMoreDone(todo: seq<int>, k: nat)
    requires k < |todo|
    ensures Elements(todo[..k + 1]) == Elements(todo[..k]) + {todo[k]}
    ensures NoRepeats(todo) ==> todo[k] !in todo[..k]
  {
    assert todo[..k + 1] == todo[..k] + [todo[k]];
  }

  lemma {:induction false} RowsAfterCells(
    e: Engine, h: Header, rows: seq<Row>, reps: set<int>, todo: seq<int>, k: nat)
    returns (reps': set<int>)
    requires Labelled(e) && NoRepeats(h.srs) && WholeReplicates(rows, e, h, reps) && k <= |todo|
    requires NoRepeats(todo) && forall i :: i in todo ==> i in Indices(h.shard) && i !in reps
    ensures reps' == reps + Elements(todo[..k])
    ensures WholeReplicates(RowsAfter(e, h.srs, rows, todo, k), e, h, reps')
  {
    if k == 0 {
      reps' := reps;
      assert todo[..0] == [];
    } else {
      var before := RowsAfterCells(e, h, rows, reps, todo, k - 1);
      var i := todo[k - 1];
      assert i in todo;
      OneMoreDone(todo, k - 1);
      CellsGrow(RowsAfter(e, h.srs, rows, todo, k - 1), e, h.srs, before, i);
      CellsSorted(RowsAfter(e, h.srs, rows, todo, k - 1) + ReplicateRows(e, h.srs, i), e, h.srs, before + {i});
      reps' := before + {i};
    }
  }

  lemma {:induction false} FileAfterCheckpoint(
    e: Engine, h: Header, file: Option<Doc>, rows: seq<Row>, reps: set<int>, todo: seq<int>, due: nat -> bool, k: nat)
    requires Labelled(e) && NoRepeats(h.srs) && WholeReplicates(rows, e, h, reps) && k <= |todo|
    requires NoRepeats(todo) && forall i :: i in todo ==> i in Indices(h.shard) && i !in reps
    requires Checkpoint(file, e, h)
    ensures Checkpoint(FileAfter(e, h, file, rows, todo, due, k), e, h)
  {
    if k > 0 {
      if (h.eager || k < |todo|) && due(k - 1) {
        var reps' := RowsAfterCells(e, h, rows, reps, todo, k);
      } else {
        FileAfterCheckpoint(e, h, file, rows, reps, todo, due, k - 1);
      }
    }
  }

  /** Running every missing replicate completes the shard. */
  lemma RunToEnd(e: Engine, h: Header, rows: seq<Row>, reps: set<int>) returns (all: set<int>)
    requires Labelled(e) && NoRepeats(h.srs) && Forward(h.shard) && WholeReplicates(rows, e, h, reps)
    ensures var todo := Todo(Indices(h.shard), reps);
            var final := SortBy(RowsAfter(e, h.srs, rows, todo, |todo|), ByCell(h.srs));
            final == Canonical(e, h.srs, Indices(h.shard)) && WholeReplicates(final, e, h, all)
  {
    var idx := Indices(h.shard);
    var todo := Todo(idx, reps);
    ForwardIncreasing(h.shard);
    TodoExactly(idx, reps);
    all := RowsAfterCells(e, h, rows, reps, todo, |todo|);
    assert todo[..|todo|] == todo;
    forall i ensures i in all <==> i in idx {
      assert i in todo <==> i in idx && i !in reps;
    }
    SortedCellsCanonical(RowsAfter(e, h.srs, rows, todo, |todo|), e, h.srs, idx, all);
    CellsSorted(RowsAfter(e, h.srs, rows, todo, |todo|), e, h.srs, all);
  }
}
