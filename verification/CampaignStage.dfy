/** `run_stage` of `scripts/campaign_k6.py` over the shard file, and every history of
    sessions and crashes that can lead to a finished shard. */
module CampaignStage {
  import opened Sequences
  import opened ShardLog

  const ERROR_STOP_AFTER: int := 1_000

  datatype Outcome = Done | Memory | Errors | Limit

  /** The documents with no row yet, in order. */
  function Missing(docs: seq<int>, rows: map<int, Row>): seq<int> {
    if docs == [] then []
    else (if docs[0] in rows then [] else [docs[0]]) + Missing(docs[1..], rows)
  }

  function RowsFor(work: int -> Row, docs: seq<int>): (rows: seq<Row>)
    ensures |rows| == |docs|
  {
    seq(|docs|, i requires 0 <= i < |docs| => work(docs[i]))
  }

  /** A document's row carries its own index. */
  ghost predicate Labelled(work: int -> Row) {
    forall i :: work(i).index == i
  }

  /** The documents whose row is an error. */
  function ErrorsIn(rows: map<int, Row>): set<int> {
    set i | i in rows && rows[i].error
  }

  /** The filed stop rule: more than 1% error rows once a thousand documents have run. */
  predicate ErrorStop(rows: map<int, Row>) {
    |rows| >= ERROR_STOP_AFTER && 100 * |ErrorsIn(rows)| > |rows|
  }

  /** How many rows of a log are errors. */
  function ErrorRows(log: seq<Row>): nat {
    if log == [] then 0 else ErrorRows(log[..|log| - 1]) + (if log[|log| - 1].error then 1 else 0)
  }

  /** A log of at least a thousand rows, more than one in a hundred of them errors. */
  ghost predicate TooManyErrors(log: seq<Row>) {
    |log| >= 1_000 && 100 * ErrorRows(log) > |log|
  }

  lemma ErrorsStep(rows: map<int, Row>, r: Row)
    requires r.index !in rows
    ensures |rows[r.index := r]| == |rows| + 1
    ensures |ErrorsIn(rows[r.index := r])| == |ErrorsIn(rows)| + (if r.error then 1 else 0)
  {
    var after := rows[r.index := r];
    assert after.Keys == rows.Keys + {r.index};
    assert ErrorsIn(after) == ErrorsIn(rows) + (if r.error then {r.index} else {});
    assert r.index !in ErrorsIn(rows);
  }

  lemma {:induction false} ErrorsCounted(log: seq<Row>)
    requires Distinct(log)
    ensures |IndexOf(log)| == |log| && |ErrorsIn(IndexOf(log))| == ErrorRows(log)
  {
    if log != [] {
      var n := |log| - 1;
      ErrorsCounted(log[..n]);
      IndexKeys(log[..n]);
      ErrorsStep(IndexOf(log[..n]), log[n]);
    }
  }

  /** On the rows of a log without repeats, the stop rule counts its error rows. */
  lemma ErrorStopCounts(log: seq<Row>)
    requires Distinct(log)
    ensures ErrorStop(IndexOf(log)) <==> TooManyErrors(log)
  {
    ErrorsCounted(log);
  }

  lemma {:induction false} MissingExactly(docs: seq<int>, rows: map<int, Row>)
    ensures forall d :: d in Missing(docs, rows) <==> d in docs && d !in rows
    ensures NoRepeats(docs) ==> NoRepeats(Missing(docs, rows))
    ensures |Missing(docs, rows)| <= |docs|
  {
    if docs != [] {
      MissingExactly(docs[1..], rows);
      assert docs == [docs[0]] + docs[1..];
      if NoRepeats(docs) {
        assert forall j :: 0 < j < |docs| ==> docs[j] != docs[0];
        assert docs[0] !in docs[1..];
      }
    }
  }

  /** Rows of distinct documents that have none yet keep every index unique. */
  lemma ExtendDistinct(log: seq<Row>, work: int -> Row, todo: seq<int>)
    requires Labelled(work) && Distinct(log) && NoRepeats(todo)
    requires forall d :: d in todo ==> d !in IndexOf(log)
    ensures Distinct(log + RowsFor(work, todo))
  {
    IndexKeys(log);
    var all := log + RowsFor(work, todo);
    forall i, j | 0 <= i < j < |all| ensures all[i].index != all[j].index {
      if |log| <= j {
        assert all[j].index == todo[j - |log|] && todo[j - |log|] in todo;
        if i < |log| {
          assert log[i].index in IndexOf(log);
        } else {
          assert all[i].index == todo[i - |log|];
        }
      }
    }
  }

  lemma {:induction false} IndexGrows(log: seq<Row>, more: seq<Row>)
    ensures IndexOf(log).Keys + (set r | r in more :: r.index) == IndexOf(log + more).Keys
  {
    if more == [] {
      assert log + more == log;
    } else {
      var n := |more| - 1;
      IndexGrows(log, more[..n]);
      assert (log + more)[..|log + more| - 1] == log + more[..n];
      assert more == more[..n] + [more[n]];
      assert (set r | r in more :: r.index) == (set r | r in more[..n] :: r.index) + {more[n].index};
    }
  }

  /** A stop rule over the rows a stage has so far. */
  type StopRule = map<int, Row> -> bool

  /** No stop rule is met after any of the first n documents. */
  ghost predicate Calm(stop: StopRule, log: seq<Row>, work: int -> Row, todo: seq<int>, rssOver: nat -> bool, n: int)
    requires n <= |todo|
  {
    forall k: nat :: k < n ==> !rssOver(k) && !stop(IndexOf(log + RowsFor(work, todo[..k + 1])))
  }

  lemma CalmStep(stop: StopRule, log: seq<Row>, work: int -> Row, todo: seq<int>, rssOver: nat -> bool, n: nat)
    requires n < |todo| && Calm(stop, log, work, todo, rssOver, n)
    requires !rssOver(n) && !stop(IndexOf(log + RowsFor(work, todo[..n + 1])))
    ensures Calm(stop, log, work, todo, rssOver, n + 1)
  {
    forall k: nat | k < n + 1 ensures !rssOver(k) && !stop(IndexOf(log + RowsFor(work, todo[..k + 1]))) {
      assert k < n || k == n;
    }
  }

  /** The file after the next document of the list. */
  method RunOne(out: ShardFile, ghost log0: seq<Row>, todo: seq<int>, work: int -> Row, k: nat, due: bool)
    requires out.Valid() && k < |todo| && out.log == log0 + RowsFor(work, todo[..k])
    modifies out, out.disk
    ensures out.Valid() && out.log == log0 + RowsFor(work, todo[..k + 1])
  {
    out.Append(work(todo[k]), due);
    assert log0 + RowsFor(work, todo[..k]) + [work(todo[k])] == log0 + (RowsFor(work, todo[..k]) + [work(todo[k])]);
  }

  /** The loop over the missing documents; it stops at the first rule that fires. */
  method RunTodo(
    out: ShardFile, todo: seq<int>, work: int -> Row, stop: StopRule, limit: Option<nat>, rssOver: nat -> bool,
    syncDue: nat -> bool)
    returns (o: Outcome, ghost n: nat)
    requires out.Valid()
    modifies out, out.disk
    ensures out.Valid()
    ensures n <= |todo| && out.log == old(out.log) + RowsFor(work, todo[..n])
    ensures Calm(stop, old(out.log), work, todo, rssOver, n - 1)
    ensures limit.Some? ==> n <= limit.value
    ensures match o
      case Done => n == |todo|
      case Limit => limit == Some(n) && n < |todo|
      case Errors => n > 0 && stop(out.rows)
      case Memory => n > 0 && rssOver(n - 1) && !stop(out.rows)
  {
    ghost var log0 := out.log;
    n := 0;
    assert log0 + RowsFor(work, todo[..0]) == log0;
    for k := 0 to |todo|
      invariant out.Valid() && n == k
      invariant out.log == log0 + RowsFor(work, todo[..k])
      invariant limit.Some? ==> k <= limit.value
      invariant Calm(stop, log0, work, todo, rssOver, k)
    {
      if limit.Some? && k >= limit.value {
        return Limit, k;
      }
      RunOne(out, log0, todo, work, k, syncDue(k));
      n := k + 1;
      if stop(out.rows) {
        return Errors, n;
      }
      if rssOver(k) {
        return Memory, n;
      }
      CalmStep(stop, log0, work, todo, rssOver, k);
    }
    o := Done;
  }

  /** Runs every document not yet in the file; `rssOver` and `syncDue` are what the memory
      gauge and the clock say after each document. Whatever stops it, the file has grown by
      the rows of the next n missing documents in order, no document twice, and `Done`
      means none is missing. */
  method RunStage(
    out: ShardFile, docs: seq<int>, work: int -> Row, limit: Option<nat>, rssOver: nat -> bool, syncDue: nat -> bool)
    returns (o: Outcome, ghost n: nat)
    requires out.Valid() && Distinct(out.log) && Labelled(work) && NoRepeats(docs)
    modifies out, out.disk
    ensures out.Valid() && Distinct(out.log)
    ensures n <= |Missing(docs, old(out.rows))|
    ensures out.log == old(out.log) + RowsFor(work, Missing(docs, old(out.rows))[..n])
    ensures forall k: nat :: k < n - 1 ==>
      !rssOver(k) && !TooManyErrors(old(out.log) + RowsFor(work, Missing(docs, old(out.rows))[..k + 1]))
    ensures match o
      case Done => n == |Missing(docs, old(out.rows))| && forall d :: d in docs ==> d in out.rows
      case Limit => limit == Some(n) && n < |Missing(docs, old(out.rows))|
      case Errors => n > 0 && TooManyErrors(out.log)
      case Memory => n > 0 && rssOver(n - 1) && !TooManyErrors(out.log)
    ensures limit.Some? ==> n <= limit.value
  {
    var todo := Missing(docs, out.rows);
    ghost var log0 := out.log;
    MissingExactly(docs, out.rows);
    o, n := RunTodo(out, todo, work, ErrorStop, limit, rssOver, syncDue);
    forall k: nat | k <= n
      ensures Distinct(log0 + RowsFor(work, todo[..k]))
      ensures ErrorStop(IndexOf(log0 + RowsFor(work, todo[..k]))) <==> TooManyErrors(log0 + RowsFor(work, todo[..k]))
    {
      assert forall d :: d in todo[..k] ==> d in todo;
      ExtendDistinct(log0, work, todo[..k]);
      ErrorStopCounts(log0 + RowsFor(work, todo[..k]));
    }
    if o == Done {
      assert todo[..n] == todo;
      NothingMissing(docs, log0, work);
      MissingExactly(docs, out.rows);
    }
  }

  // ---------------------------------------------------------------- histories

  /** One process: it resumes the file, completes n more documents, and then dies or ends,
      leaving `keep` bytes (never fewer than the header, which was synced at creation). */
  datatype Session = Session(n: nat, keep: nat)

  function Least(a: nat, b: nat): nat { if a < b then a else b }

  /** The file once a session has resumed it and completed n documents. */
  function Ran(c: Codec, id: string, docs: seq<int>, work: int -> Row, raw: string, n: nat): Result<string> {
    match Load(c, id, raw)
    case Err(e) => Err(e)
    case Ok(l) =>
      var todo := Missing(docs, l.rows);
      Ok(l.bytes + Text(Lines(c, RowsFor(work, todo[..Least(n, |todo|)]))))
  }

  function AfterSession(
    c: Codec, header: string, id: string, docs: seq<int>, work: int -> Row, raw: string, s: Session): Result<string>
  {
    match Ran(c, id, docs, work, raw, s.n)
    case Err(e) => Err(e)
    case Ok(full) =>
      var least := Least(|header| + 1, |full|);
      Ok(if s.keep < least then full[..least] else full[..Least(s.keep, |full|)])
  }

  function Replay(
    c: Codec, header: string, id: string, docs: seq<int>, work: int -> Row, raw: string, sessions: seq<Session>)
    : Result<string>
    decreases |sessions|
  {
    if sessions == [] then Ok(raw)
    else
      match AfterSession(c, header, id, docs, work, raw, sessions[0])
      case Err(e) => Err(e)
      case Ok(next) => Replay(c, header, id, docs, work, next, sessions[1..])
  }

  /** A log of a shard: each row is the work of a requested document, none twice. */
  ghost predicate Sound(log: seq<Row>, docs: seq<int>, work: int -> Row) {
    && Distinct(log)
    && forall k :: 0 <= k < |log| ==> log[k] == work(log[k].index) && log[k].index in docs
  }

  /** The bytes are a prefix, header included, of a sound log's file. */
  ghost predicate Image(c: Codec, header: string, docs: seq<int>, work: int -> Row, raw: string, log: seq<Row>) {
    && Sound(log, docs, work)
    && |header| < |raw| && raw <= FileOf(c, header, log)
  }

  ghost predicate Setting(c: Codec, header: string, id: string, docs: seq<int>, work: int -> Row) {
    Lossless(c) && OneLine(header) && c.ident(header) == Some(id) && Labelled(work) && NoRepeats(docs)
  }

  lemma ExtendSound(log: seq<Row>, docs: seq<int>, work: int -> Row, n: nat)
    requires Labelled(work) && NoRepeats(docs) && Sound(log, docs, work) && n <= |Missing(docs, IndexOf(log))|
    ensures Sound(log + RowsFor(work, Missing(docs, IndexOf(log))[..n]), docs, work)
  {
    var todo := Missing(docs, IndexOf(log));
    MissingExactly(docs, IndexOf(log));
    assert forall d :: d in todo[..n] ==> d in todo;
    ExtendDistinct(log, work, todo[..n]);
    var all := log + RowsFor(work, todo[..n]);
    forall k | 0 <= k < |all| ensures all[k] == work(all[k].index) && all[k].index in docs {
      if k >= |log| {
        assert todo[..n][k - |log|] in todo[..n];
      }
    }
  }

  /** Resuming a crash image continues from exactly its whole rows. */
  lemma RanFrom(
    c: Codec, header: string, id: string, docs: seq<int>, work: int -> Row, raw: string, log: seq<Row>, n: nat)
    returns (full: seq<Row>)
    requires Setting(c, header, id, docs, work) && Image(c, header, docs, work, raw, log)
    ensures Sound(full, docs, work)
    ensures Ran(c, id, docs, work, raw, n) == Ok(FileOf(c, header, full))
    ensures n >= |docs| ==> Missing(docs, IndexOf(full)) == []
  {
    var kept := log[..WholeRows(c, header, log, |raw|)];
    assert FileOf(c, header, log)[..|raw|] == raw;
    LoadCrashImage(c, header, id, log, |raw|);
    assert Sound(kept, docs, work);
    var todo := Missing(docs, IndexOf(kept));
    MissingExactly(docs, IndexOf(kept));
    var m := Least(n, |todo|);
    full := kept + RowsFor(work, todo[..m]);
    ExtendSound(kept, docs, work, m);
    AppendFile(c, header, kept, RowsFor(work, todo[..m]));
    if n >= |docs| {
      assert todo[..m] == todo;
      NothingMissing(docs, kept, work);
    }
  }

  lemma NothingMissing(docs: seq<int>, log: seq<Row>, work: int -> Row)
    requires Labelled(work)
    ensures Missing(docs, IndexOf(log + RowsFor(work, Missing(docs, IndexOf(log))))) == []
  {
    var todo := Missing(docs, IndexOf(log));
    var more := RowsFor(work, todo);
    var full := IndexOf(log + more);
    IndexGrows(log, more);
    MissingExactly(docs, IndexOf(log));
    forall d | d in docs ensures d in full {
      if d in todo {
        var i :| 0 <= i < |todo| && todo[i] == d;
        assert more[i] in more && more[i].index == d;
      }
    }
    MissingNone(docs, full);
  }

  lemma {:induction false} MissingNone(docs: seq<int>, rows: map<int, Row>)
    requires forall d :: d in docs ==> d in rows
    ensures Missing(docs, rows) == []
  {
    if docs != [] {
      var d := docs[0];
      assert d in docs && d in rows;
      MissingNone(docs[1..], rows);
      assert Missing(docs, rows) == [] + Missing(docs[1..], rows);
    }
  }

  /** Every session leaves a crash image of a sound log, so the next one can resume it. */
  lemma SessionKeeps(
    c: Codec, header: string, id: string, docs: seq<int>, work: int -> Row, raw: string, log: seq<Row>, s: Session)
    returns (next: string, log': seq<Row>)
    requires Setting(c, header, id, docs, work) && Image(c, header, docs, work, raw, log)
    ensures AfterSession(c, header, id, docs, work, raw, s) == Ok(next)
    ensures Image(c, header, docs, work, next, log')
  {
    log' := RanFrom(c, header, id, docs, work, raw, log, s.n);
    next := AfterSession(c, header, id, docs, work, raw, s).value;
  }

  /** Over every history of sessions and crashes the file never becomes unreadable, never
      holds a document twice and never holds a stranger. */
  lemma {:induction false} HistoryKeeps(
    c: Codec, header: string, id: string, docs: seq<int>, work: int -> Row, raw: string, log: seq<Row>,
    sessions: seq<Session>)
    returns (last: string, log': seq<Row>)
    requires Setting(c, header, id, docs, work) && Image(c, header, docs, work, raw, log)
    ensures Replay(c, header, id, docs, work, raw, sessions) == Ok(last)
    ensures Image(c, header, docs, work, last, log')
    decreases |sessions|
  {
    if sessions == [] {
      last, log' := raw, log;
    } else {
      var next, log1 := SessionKeeps(c, header, id, docs, work, raw, log, sessions[0]);
      last, log' := HistoryKeeps(c, header, id, docs, work, next, log1, sessions[1..]);
    }
  }

  predicate ByIndex(a: Row, b: Row) { a.index <= b.index }

  /** `read_shard`: the rows up to the first line that does not parse. */
  function ReadRows(c: Codec, lines: seq<string>): seq<Row> {
    if lines == [] || c.dec(lines[0]).None? then []
    else [c.dec(lines[0]).value] + ReadRows(c, lines[1..])
  }

  function ReadShard(c: Codec, raw: string): seq<Row> {
    var lines := SplitLines(raw);
    if lines == [] then [] else ReadRows(c, lines[1..])
  }

  lemma {:induction false} ReadLines(c: Codec, rows: seq<Row>)
    requires Lossless(c)
    ensures ReadRows(c, Lines(c, rows)) == rows
  {
    if rows != [] {
      assert Lines(c, rows)[0] == c.enc(rows[0]);
      assert Lines(c, rows)[1..] == Lines(c, rows[1..]);
      ReadLines(c, rows[1..]);
      assert rows == [rows[0]] + rows[1..];
    }
  }

  lemma ReadFile(c: Codec, header: string, rows: seq<Row>)
    requires Lossless(c) && OneLine(header)
    ensures ReadShard(c, FileOf(c, header, rows)) == rows
  {
    SplitText([header] + Lines(c, rows));
    assert ([header] + Lines(c, rows))[1..] == Lines(c, rows);
    ReadLines(c, rows);
  }

  /** The rows of distinct documents: one each, and nothing else. */
  lemma RowsForMembers(work: int -> Row, docs: seq<int>)
    requires Labelled(work) && NoRepeats(docs)
    ensures NoRepeats(RowsFor(work, docs))
    ensures forall r :: r in RowsFor(work, docs) <==> r == work(r.index) && r.index in docs
  {
    var all := RowsFor(work, docs);
    forall i, j | 0 <= i < j < |all| ensures all[i] != all[j] {
      assert all[i].index == docs[i] && all[j].index == docs[j];
    }
    forall r ensures r in all <==> r == work(r.index) && r.index in docs {
      if r in all {
        var i :| 0 <= i < |all| && all[i] == r;
        assert docs[i] in docs;
      }
      if r == work(r.index) && r.index in docs {
        var i :| 0 <= i < |docs| && docs[i] == r.index;
        assert all[i] == r;
      }
    }
  }

  /** Rows that are the work of the documents, each once, are a rearrangement of them. */
  lemma PermutedRows(rows: seq<Row>, docs: seq<int>, work: int -> Row)
    requires Labelled(work) && NoRepeats(docs) && NoRepeats(rows)
    requires forall r :: r in rows ==> r == work(r.index) && r.index in docs
    requires forall d :: d in docs ==> work(d) in rows
    ensures multiset(rows) == multiset(RowsFor(work, docs))
  {
    RowsForMembers(work, docs);
    forall r ensures r in rows <==> r in RowsFor(work, docs) {
      if r in RowsFor(work, docs) {
        assert work(r.index) in rows;
      }
    }
    SameElements(rows, RowsFor(work, docs));
  }

  /** A sound log with nothing missing is a rearrangement of the uninterrupted run's. */
  lemma SoundCompleteIsAll(log: seq<Row>, docs: seq<int>, work: int -> Row)
    requires Labelled(work) && NoRepeats(docs) && Sound(log, docs, work) && Missing(docs, IndexOf(log)) == []
    ensures multiset(log) == multiset(RowsFor(work, docs))
  {
    MissingExactly(docs, IndexOf(log));
    IndexKeys(log);
    forall d | d in docs ensures work(d) in log {
      assert d !in Missing(docs, IndexOf(log));
      var k :| 0 <= k < |log| && log[k].index == d;
    }
    PermutedRows(log, docs, work);
  }

  /** The rows of one uninterrupted run in index order: indices strictly increase, and there is
      the work of every document and nothing else. */
  ghost predicate RunOf(rows: seq<Row>, docs: seq<int>, work: int -> Row) {
    && (forall i, j :: 0 <= i < j < |rows| ==> rows[i].index < rows[j].index)
    && (forall r :: r in rows ==> r.index in docs && r == work(r.index))
    && (forall d :: d in docs ==> work(d) in rows)
  }

  /** There is only one such sequence. */
  lemma RunOfUnique(a: seq<Row>, b: seq<Row>, docs: seq<int>, work: int -> Row)
    requires RunOf(a, docs, work) && RunOf(b, docs, work)
    ensures a == b
  {
    forall r ensures r in a <==> r in b {
      if r in a {
        assert work(r.index) in b;
      }
      if r in b {
        assert work(r.index) in a;
      }
    }
    SameElements(a, b);
    SortedUnique(a, b, ByIndex);
  }

  /** Sorting a rearrangement of the documents' rows gives that sequence. */
  lemma SortedIsRun(rows: seq<Row>, docs: seq<int>, work: int -> Row)
    requires Labelled(work) && NoRepeats(docs) && multiset(rows) == multiset(RowsFor(work, docs))
    ensures RunOf(SortBy(rows, ByIndex), docs, work)
  {
    var all, sorted := RowsFor(work, docs), SortBy(rows, ByIndex);
    RowsForMembers(work, docs);
    SamePermutation(rows, all);
    NoRepeatsKept(all, rows);
    SortKeeps(rows, ByIndex);
    NoRepeatsKept(rows, sorted);
    RowsSeparated(docs, work);
    SortSorts(rows, ByIndex);
    forall i, j | 0 <= i < j < |sorted| ensures sorted[i].index < sorted[j].index {
      assert sorted[i] in all && sorted[j] in all;
      assert ByIndex(sorted[i], sorted[j]);
      assert sorted[i] == work(sorted[i].index) && sorted[j] == work(sorted[j].index);
    }
    forall d | d in docs ensures work(d) in sorted {
      assert work(d) in all;
    }
  }

  lemma RowsSeparated(docs: seq<int>, work: int -> Row)
    requires Labelled(work) && NoRepeats(docs)
    ensures Separates(RowsFor(work, docs), ByIndex) && TotalPreorder(ByIndex)
  {
  }

  /** Confluence of one shard: after any history of sessions and crashes, a session that
      runs to the end leaves a file whose rows, in index order, are those of a single
      uninterrupted run. */
  lemma HistoryConfluent(c: Codec, header: string, id: string, docs: seq<int>, work: int -> Row, sessions: seq<Session>)
    returns (last: string, final: string)
    requires Setting(c, header, id, docs, work)
    ensures Replay(c, header, id, docs, work, FileOf(c, header, []), sessions) == Ok(last)
    ensures Ran(c, id, docs, work, last, |docs|) == Ok(final)
    ensures multiset(ReadShard(c, final)) == multiset(RowsFor(work, docs))
    ensures RunOf(SortBy(ReadShard(c, final), ByIndex), docs, work)
  {
    var log: seq<Row>;
    last, log := HistoryKeeps(c, header, id, docs, work, FileOf(c, header, []), [], sessions);
    var full := RanFrom(c, header, id, docs, work, last, log, |docs|);
    final := FileOf(c, header, full);
    ReadFile(c, header, full);
    SoundCompleteIsAll(full, docs, work);
    SortedIsRun(full, docs, work);
  }

  // ---------------------------------------------------------------- processes on a disk

  /** What befalls one process: the document limit it was given, what the memory gauge and the
      clock say after each document, and the bytes left if it is killed. One that is not
      killed closes the file. */
  datatype Process = Process(limit: Option<nat>, rssOver: nat -> bool, syncDue: nat -> bool, killedAt: Option<nat>)

  /** The file a process finds, or the one it creates with a synced header. */
  function Found(c: Codec, header: string, present: bool, bytes: string): string {
    if present then bytes else FileOf(c, header, [])
  }

  /** The disk holds nothing yet, or a crash image whose header is durable. */
  ghost predicate Resumable(disk: Disk, c: Codec, header: string, docs: seq<int>, work: int -> Row, log: seq<Row>)
    reads disk
  {
    if disk.present then
      Image(c, header, docs, work, disk.bytes, log) && |header| < disk.synced <= |disk.bytes|
    else log == []
  }

  /** The whole file of the header and the rows of every document, in some order. */
  ghost predicate HoldsAll(c: Codec, header: string, docs: seq<int>, work: int -> Row, bytes: string) {
    exists log :: bytes == FileOf(c, header, log) && multiset(log) == multiset(RowsFor(work, docs))
  }

  /** What was found loads as the whole rows of its log. */
  lemma FoundLoads(c: Codec, header: string, id: string, docs: seq<int>, work: int -> Row, raw: string, log: seq<Row>)
    requires Setting(c, header, id, docs, work) && Image(c, header, docs, work, raw, log)
    ensures var kept := log[..WholeRows(c, header, log, |raw|)];
            Sound(kept, docs, work) && Load(c, id, raw) == Ok(Loaded(FileOf(c, header, kept), IndexOf(kept)))
  {
    assert FileOf(c, header, log)[..|raw|] == raw;
    LoadCrashImage(c, header, id, log, |raw|);
  }

  /** A run of n documents from the loaded rows, cut anywhere after the header, is a session. */
  lemma RunIsSession(
    c: Codec, header: string, id: string, docs: seq<int>, work: int -> Row, raw: string, kept: seq<Row>,
    full: seq<Row>, s: Session)
    requires Setting(c, header, id, docs, work) && Sound(kept, docs, work)
    requires Load(c, id, raw) == Ok(Loaded(FileOf(c, header, kept), IndexOf(kept)))
    requires s.n <= |Missing(docs, IndexOf(kept))|
    requires full == kept + RowsFor(work, Missing(docs, IndexOf(kept))[..s.n])
    requires |header| < s.keep <= |FileOf(c, header, full)|
    ensures AfterSession(c, header, id, docs, work, raw, s) == Ok(FileOf(c, header, full)[..s.keep])
    ensures Image(c, header, docs, work, FileOf(c, header, full)[..s.keep], full)
  {
    AppendFile(c, header, kept, RowsFor(work, Missing(docs, IndexOf(kept))[..s.n]));
    ExtendSound(kept, docs, work, s.n);
  }

  /** The start of a process: the file is opened with resume and stands at the whole rows of what
      was found. */
  method StartProcess(
    disk: Disk, c: Codec, header: string, id: string, docs: seq<int>, work: int -> Row, ghost log: seq<Row>)
    returns (f: ShardFile)
    requires Setting(c, header, id, docs, work) && Resumable(disk, c, header, docs, work, log)
    modifies disk
    ensures fresh(f) && f.Valid() && f.disk == disk && f.codec == c && f.header == header
    ensures Sound(f.log, docs, work)
    ensures Load(c, id, old(Found(c, header, disk.present, disk.bytes)))
            == Ok(Loaded(FileOf(c, header, f.log), IndexOf(f.log)))
  {
    ghost var raw := Found(c, header, disk.present, disk.bytes);
    FoundLoads(c, header, id, docs, work, raw, log);
    var started := ShardFile.Open(disk, c, header, id, true, log);
    f := started.value;
    assert f.log == log[..WholeRows(c, header, log, |raw|)];
  }

  /** The end of a process: killed, the file keeps a prefix that holds at least what was durable;
      otherwise it is closed. */
  method EndProcess(f: ShardFile, killedAt: Option<nat>) returns (keep: nat)
    requires f.Valid()
    modifies f.disk
    ensures |f.header| < keep <= |FileOf(f.codec, f.header, f.log)|
    ensures f.disk.present && f.disk.synced == keep && f.disk.bytes == FileOf(f.codec, f.header, f.log)[..keep]
    ensures killedAt.Some? && old(f.disk.synced) <= killedAt.value <= old(|f.disk.bytes|) ==> keep == killedAt.value
    ensures killedAt.None? ==> f.disk.bytes == FileOf(f.codec, f.header, f.log)
  {
    var disk := f.disk;
    if killedAt.Some? {
      keep := if killedAt.value < disk.synced then disk.synced else Least(killedAt.value, |disk.bytes|);
      disk.Crash(keep);
    } else {
      f.Close();
      keep := |disk.bytes|;
      assert disk.bytes[..|disk.bytes|] == disk.bytes;
    }
  }

  /** One process on the disk: it opens the file with resume, runs the stage, and is killed or
      closes. Whatever happens, what it leaves is what the session it amounts to leaves; and
      if it closes with every document done, the file holds exactly the uninterrupted rows. */
  method RunProcess(
    disk: Disk, c: Codec, header: string, id: string, docs: seq<int>, work: int -> Row, p: Process, ghost log: seq<Row>)
    returns (o: Option<Outcome>, ghost s: Session, ghost log': seq<Row>)
    requires Setting(c, header, id, docs, work) && Resumable(disk, c, header, docs, work, log)
    modifies disk
    ensures disk.present && Resumable(disk, c, header, docs, work, log')
    ensures AfterSession(c, header, id, docs, work, old(Found(c, header, disk.present, disk.bytes)), s)
            == Ok(disk.bytes)
    ensures o.None? <==> p.killedAt.Some?
    ensures (p.limit.Some? ==> s.n <= p.limit.value) && forall k: nat :: k < s.n - 1 ==> !p.rssOver(k)
    ensures o.Some? ==> match o.value
      case Done => HoldsAll(c, header, docs, work, disk.bytes)
      case Limit => p.limit == Some(s.n)
      case Memory => s.n > 0 && p.rssOver(s.n - 1) && !TooManyErrors(log')
      case Errors => s.n > 0 && TooManyErrors(log')
  {
    ghost var raw := Found(c, header, disk.present, disk.bytes);
    var f := StartProcess(disk, c, header, id, docs, work, log);
    ghost var kept := f.log;
    ghost var n: nat;
    var outcome: Outcome;
    outcome, n := RunStage(f, docs, work, p.limit, p.rssOver, p.syncDue);
    log' := f.log;
    var keep := EndProcess(f, p.killedAt);
    s := Session(n, keep);
    o := if p.killedAt.Some? then None else Some(outcome);
    RunIsSession(c, header, id, docs, work, raw, kept, log', s);
    if o == Some(Done) {
      DoneIsAll(c, header, docs, work, log');
    }
  }

  lemma DoneIsAll(c: Codec, header: string, docs: seq<int>, work: int -> Row, log: seq<Row>)
    requires Lossless(c) && OneLine(header) && Labelled(work) && NoRepeats(docs) && Sound(log, docs, work)
    requires forall d :: d in docs ==> d in IndexOf(log)
    ensures HoldsAll(c, header, docs, work, FileOf(c, header, log))
  {
    MissingNone(docs, IndexOf(log));
    SoundCompleteIsAll(log, docs, work);
  }

  /** Such a file is read back as the uninterrupted rows, up to their order. */
  lemma HoldsAllReads(c: Codec, header: string, docs: seq<int>, work: int -> Row, bytes: string)
    requires Lossless(c) && OneLine(header) && Labelled(work) && NoRepeats(docs)
    requires HoldsAll(c, header, docs, work, bytes)
    ensures RunOf(SortBy(ReadShard(c, bytes), ByIndex), docs, work)
  {
    var log :| bytes == FileOf(c, header, log) && multiset(log) == multiset(RowsFor(work, docs));
    ReadFile(c, header, log);
    SortedIsRun(log, docs, work);
  }

  lemma {:induction false} ReplaySnoc(
    c: Codec, header: string, id: string, docs: seq<int>, work: int -> Row, raw: string, sessions: seq<Session>,
    s: Session)
    ensures Replay(c, header, id, docs, work, raw, sessions + [s]) ==
            match Replay(c, header, id, docs, work, raw, sessions)
            case Err(e) => Err(e)
            case Ok(next) => AfterSession(c, header, id, docs, work, next, s)
    decreases |sessions|
  {
    if sessions == [] {
      assert ([s])[1..] == [];
    } else {
      assert (sessions + [s])[1..] == sessions[1..] + [s];
      var next := AfterSession(c, header, id, docs, work, raw, sessions[0]);
      if next.Ok? {
        ReplaySnoc(c, header, id, docs, work, next.value, sessions[1..], s);
      }
    }
  }

  /** The whole life of a shard file on the disk, process after process: the bytes left are
      those of the history the processes amount to, and if the last one reports that it is
      done, the rows in index order are those of a single uninterrupted run. */
  method RunProcesses(
    disk: Disk, c: Codec, header: string, id: string, docs: seq<int>, work: int -> Row, ps: seq<Process>)
    returns (last: Option<Outcome>, ghost sessions: seq<Session>)
    requires Setting(c, header, id, docs, work) && !disk.present
    modifies disk
    ensures |sessions| == |ps|
    ensures Replay(c, header, id, docs, work, FileOf(c, header, []), sessions)
            == Ok(Found(c, header, disk.present, disk.bytes))
    ensures last == Some(Done) ==>
      && HoldsAll(c, header, docs, work, disk.bytes)
      && RunOf(SortBy(ReadShard(c, disk.bytes), ByIndex), docs, work)
  {
    sessions, last := [], None;
    ghost var log: seq<Row> := [];
    for k := 0 to |ps|
      invariant |sessions| == k && Resumable(disk, c, header, docs, work, log)
      invariant Replay(c, header, id, docs, work, FileOf(c, header, []), sessions)
                == Ok(Found(c, header, disk.present, disk.bytes))
      invariant last == Some(Done) ==> HoldsAll(c, header, docs, work, disk.bytes)
    {
      ghost var s: Session;
      last, s, log := RunProcess(disk, c, header, id, docs, work, ps[k], log);
      ReplaySnoc(c, header, id, docs, work, FileOf(c, header, []), sessions, s);
      sessions := sessions + [s];
    }
    if last == Some(Done) {
      HoldsAllReads(c, header, docs, work, disk.bytes);
    }
  }
}
