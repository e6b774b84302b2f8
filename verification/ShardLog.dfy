/** The append-only shard file of `scripts/campaign_k6.py`: a header line, then one line per
    document. A crash may leave any prefix at least as long as what was last synced; the
    loader drops a torn last line. */
module ShardLog {
  import opened Sequences

  // ---------------------------------------------------------------- lines of text

  /** The lines, each ended by a newline. */
  function Text(lines: seq<string>): string {
    if lines == [] then [] else lines[0] + ['\n'] + Text(lines[1..])
  }

  /** `raw[:raw.rfind("\n") + 1]`. */
  function Complete(raw: string): string {
    if raw == [] then []
    else if raw[|raw| - 1] == '\n' then raw
    else Complete(raw[..|raw| - 1])
  }

  function FirstBreak(raw: string): (k: nat)
    ensures k <= |raw| && '\n' !in raw[..k]
    ensures k < |raw| ==> raw[k] == '\n'
  {
    if raw == [] || raw[0] == '\n' then 0
    else
      var k := FirstBreak(raw[1..]) + 1;
      assert raw[..k] == [raw[0]] + raw[1..][..k - 1];
      k
  }

  /** `splitlines` of text whose only line break is the newline: JSON escapes the others. */
  function SplitLines(raw: string): seq<string>
    decreases |raw|
  {
    if raw == [] then []
    else
      var k := FirstBreak(raw);
      if k == |raw| then [raw] else [raw[..k]] + SplitLines(raw[k + 1..])
  }

  predicate OneLine(l: string) {
    '\n' !in l
  }

  predicate AllOneLine(lines: seq<string>) {
    forall i :: 0 <= i < |lines| ==> OneLine(lines[i])
  }

  lemma {:induction false} FirstBreakAt(a: string, b: string)
    requires OneLine(a)
    ensures FirstBreak(a + ['\n'] + b) == |a|
  {
    if a != [] {
      assert (a + ['\n'] + b)[1..] == a[1..] + ['\n'] + b;
      assert a[0] in a;
      FirstBreakAt(a[1..], b);
    }
  }

  lemma {:induction false} SplitText(lines: seq<string>)
    requires AllOneLine(lines)
    ensures SplitLines(Text(lines)) == lines
  {
    if lines != [] {
      var l, rest := lines[0], Text(lines[1..]);
      SplitText(lines[1..]);
      FirstBreakAt(l, rest);
      var s := Text(lines);
      assert s[..|l|] == l && s[|l| + 1..] == rest;
    }
  }

  lemma {:induction false} TextAppend(a: seq<string>, b: seq<string>)
    ensures Text(a + b) == Text(a) + Text(b)
  {
    if a == [] {
      assert a + b == b;
    } else {
      assert (a + b)[1..] == a[1..] + b;
      TextAppend(a[1..], b);
    }
  }

  lemma {:induction false} TextEndsInBreak(lines: seq<string>)
    ensures Text(lines) == [] || Text(lines)[|Text(lines)| - 1] == '\n'
  {
    if lines != [] {
      TextEndsInBreak(lines[1..]);
    }
  }

  /** Whole lines followed by part of one: only the part is dropped. */
  lemma {:induction false} CompleteDropsTail(lines: seq<string>, tail: string)
    requires OneLine(tail)
    ensures Complete(Text(lines) + tail) == Text(lines)
    decreases |tail|
  {
    var s := Text(lines) + tail;
    if tail == [] {
      TextEndsInBreak(lines);
      assert s == Text(lines);
    } else {
      assert s[|s| - 1] == tail[|tail| - 1];
      assert tail[|tail| - 1] in tail;
      assert s[..|s| - 1] == Text(lines) + tail[..|tail| - 1];
      CompleteDropsTail(lines, tail[..|tail| - 1]);
    }
  }

  /** How many whole lines the first p characters hold. */
  function WholeLines(lines: seq<string>, p: nat): (k: nat)
    ensures k <= |lines|
  {
    if lines == [] || p < |lines[0]| + 1 then 0
    else 1 + WholeLines(lines[1..], p - |lines[0]| - 1)
  }

  lemma CutStep(l: string, rest: string, head: string, tail: string, q: nat)
    requires q <= |rest| && rest[..q] == head + tail
    ensures (l + ['\n'] + rest)[..|l| + 1 + q] == l + ['\n'] + head + tail
  {
    assert (l + ['\n'] + rest)[..|l| + 1 + q] == l + ['\n'] + rest[..q];
  }

  lemma {:induction false} CutTail(lines: seq<string>, p: nat) returns (tail: string)
    requires AllOneLine(lines) && p <= |Text(lines)|
    ensures OneLine(tail) && Text(lines)[..p] == Text(lines[..WholeLines(lines, p)]) + tail
  {
    var k := WholeLines(lines, p);
    if lines == [] {
      tail := [];
    } else if p < |lines[0]| + 1 {
      tail := Text(lines)[..p];
      assert tail == lines[0][..p];
      assert lines[..k] == [];
    } else {
      var l, rest, q := lines[0], lines[1..], p - |lines[0]| - 1;
      tail := CutTail(rest, q);
      CutStep(l, Text(rest), Text(rest[..k - 1]), tail, q);
      TextPrefix(lines, k);
    }
  }

  lemma TextPrefix(lines: seq<string>, k: nat)
    requires 0 < k <= |lines|
    ensures Text(lines[..k]) == lines[0] + ['\n'] + Text(lines[1..][..k - 1])
  {
    assert lines[..k][1..] == lines[1..][..k - 1];
  }

  /** Cutting the text anywhere and completing it leaves exactly its whole lines. */
  lemma CutText(lines: seq<string>, p: nat)
    requires AllOneLine(lines) && p <= |Text(lines)|
    ensures Complete(Text(lines)[..p]) == Text(lines[..WholeLines(lines, p)])
  {
    var tail := CutTail(lines, p);
    CompleteDropsTail(lines[..WholeLines(lines, p)], tail);
  }

  // ---------------------------------------------------------------- rows and files

  /** A document's result: its index, whether its status is "error", and the rest. */
  datatype Row = Row(index: int, error: bool, body: string)

  /** The JSON encoding of rows, and what identifies the run a header line belongs to. */
  datatype Codec = Codec(enc: Row -> string, dec: string -> Option<Row>, ident: string -> Option<string>)

  ghost predicate Lossless(c: Codec) {
    forall r: Row :: c.dec(c.enc(r)) == Some(r) && OneLine(c.enc(r))
  }

  function Lines(c: Codec, rows: seq<Row>): (ls: seq<string>)
    ensures |ls| == |rows|
  {
    seq(|rows|, i requires 0 <= i < |rows| => c.enc(rows[i]))
  }

  function FileOf(c: Codec, header: string, rows: seq<Row>): string {
    Text([header] + Lines(c, rows))
  }

  /** The in-memory index: the last row of each document. */
  function IndexOf(rows: seq<Row>): map<int, Row> {
    if rows == [] then map[] else IndexOf(rows[..|rows| - 1])[rows[|rows| - 1].index := rows[|rows| - 1]]
  }

  function ParseRows(c: Codec, lines: seq<string>): Result<seq<Row>> {
    if lines == [] then Ok([])
    else
      var r := c.dec(lines[0]);
      var rest := ParseRows(c, lines[1..]);
      if r.None? then Err("not a row")
      else if rest.Err? then rest
      else Ok([r.value] + rest.value)
  }

  /** What loading leaves: the repaired bytes and the rows by document. */
  datatype Loaded = Loaded(bytes: string, rows: map<int, Row>)

  /** `ShardFile._load`. */
  function Load(c: Codec, id: string, raw: string): Result<Loaded> {
    var good := Complete(raw);
    var lines := SplitLines(good);
    if lines == [] then Err("no header")
    else if c.ident(lines[0]) != Some(id) then Err("produced by a different run; refusing to resume")
    else
      var rows := ParseRows(c, lines[1..]);
      if rows.Err? then Err(rows.error) else Ok(Loaded(good, IndexOf(rows.value)))
  }

  predicate Distinct(rows: seq<Row>) {
    forall i, j :: 0 <= i < j < |rows| ==> rows[i].index != rows[j].index
  }

  lemma {:induction false} ParseLines(c: Codec, rows: seq<Row>)
    requires Lossless(c)
    ensures ParseRows(c, Lines(c, rows)) == Ok(rows)
  {
    if rows != [] {
      ParseLines(c, rows[1..]);
      assert Lines(c, rows)[0] == c.enc(rows[0]);
      assert Lines(c, rows)[1..] == Lines(c, rows[1..]);
      assert rows == [rows[0]] + rows[1..];
    }
  }

  /** How many rows survive whole in the first p bytes of the file. */
  function WholeRows(c: Codec, header: string, rows: seq<Row>, p: nat): (k: nat)
    ensures k <= |rows|
  {
    var w := WholeLines([header] + Lines(c, rows), p);
    if w == 0 then 0 else w - 1
  }

  /** A crash image of the file loads exactly when it holds the header line, and then as
      the header and the whole rows it kept: nothing torn, nothing lost, nothing new. */
  lemma LoadCrashImage(c: Codec, header: string, id: string, rows: seq<Row>, p: nat)
    requires Lossless(c) && OneLine(header) && c.ident(header) == Some(id)
    requires p <= |FileOf(c, header, rows)|
    ensures var kept := rows[..WholeRows(c, header, rows, p)];
            Load(c, id, FileOf(c, header, rows)[..p]) ==
            if p <= |header| then Err("no header") else Ok(Loaded(FileOf(c, header, kept), IndexOf(kept)))
  {
    var lines := [header] + Lines(c, rows);
    CutText(lines, p);
    var w, k := WholeLines(lines, p), WholeRows(c, header, rows, p);
    SplitText(lines[..w]);
    if w > 0 {
      assert lines[..w] == [header] + Lines(c, rows[..k]);
      assert lines[..w][1..] == Lines(c, rows[..k]);
      ParseLines(c, rows[..k]);
    }
  }

  /** No prefix of another run's file is ever resumed. */
  lemma LoadRefusesStrangers(c: Codec, header: string, id: string, rows: seq<Row>, p: nat)
    requires Lossless(c) && OneLine(header) && c.ident(header) != Some(id)
    requires p <= |FileOf(c, header, rows)|
    ensures Load(c, id, FileOf(c, header, rows)[..p]).Err?
  {
    var lines := [header] + Lines(c, rows);
    CutText(lines, p);
    SplitText(lines[..WholeLines(lines, p)]);
  }

  /** A synced row is never lost: the image keeps every row that fits whole. */
  lemma {:induction false} WholeLinesCover(lines: seq<string>, p: nat, k: nat)
    requires k <= |lines| && |Text(lines[..k])| <= p
    ensures k <= WholeLines(lines, p)
    decreases k
  {
    if k > 0 {
      assert lines[..k][1..] == lines[1..][..k - 1];
      WholeLinesCover(lines[1..], p - |lines[0]| - 1, k - 1);
    }
  }

  lemma SyncedRowsSurvive(c: Codec, header: string, rows: seq<Row>, k: nat, p: nat)
    requires k <= |rows| && |FileOf(c, header, rows[..k])| <= p
    ensures k <= WholeRows(c, header, rows, p)
  {
    var lines := [header] + Lines(c, rows);
    assert lines[..k + 1] == [header] + Lines(c, rows[..k]);
    WholeLinesCover(lines, p, k + 1);
  }

  lemma AppendFile(c: Codec, header: string, rows: seq<Row>, more: seq<Row>)
    ensures FileOf(c, header, rows + more) == FileOf(c, header, rows) + Text(Lines(c, more))
  {
    assert [header] + Lines(c, rows + more) == ([header] + Lines(c, rows)) + Lines(c, more);
    TextAppend([header] + Lines(c, rows), Lines(c, more));
  }

  lemma {:induction false} IndexKeys(rows: seq<Row>)
    ensures forall i :: i in IndexOf(rows) <==> exists k :: 0 <= k < |rows| && rows[k].index == i
    ensures Distinct(rows) ==> forall k :: 0 <= k < |rows| ==> IndexOf(rows)[rows[k].index] == rows[k]
  {
    if rows != [] {
      var n := |rows| - 1;
      IndexKeys(rows[..n]);
      forall i ensures i in IndexOf(rows) <==> exists k :: 0 <= k < |rows| && rows[k].index == i {
        if i in IndexOf(rows) && i != rows[n].index {
          assert i in IndexOf(rows[..n]);
          var k :| 0 <= k < |rows[..n]| && rows[..n][k].index == i;
          assert rows[k].index == i;
        }
        if exists k :: 0 <= k < |rows| && rows[k].index == i {
          var k :| 0 <= k < |rows| && rows[k].index == i;
          assert k < n ==> rows[..n][k].index == i;
        }
      }
      if Distinct(rows) {
        forall k | 0 <= k < |rows| ensures IndexOf(rows)[rows[k].index] == rows[k] {
          assert k < n ==> rows[..n][k] == rows[k];
        }
      }
    }
  }

  // ---------------------------------------------------------------- the file object

  /** The disk: what a reader would see, and how much of it is durable. */
  class Disk {
    var present: bool
    var bytes: string
    var synced: nat

    /** The process dies: any prefix at least as long as the durable part may be left. */
    method Crash(keep: nat)
      requires present && synced <= keep <= |bytes|
      modifies this
      ensures present && bytes == old(bytes)[..keep] && synced == keep
    {
      bytes := bytes[..keep];
      synced := keep;
    }
  }

  class ShardFile {
    const disk: Disk
    const codec: Codec
    const header: string
    var rows: map<int, Row>
    ghost var log: seq<Row>

    /** On disk: the header and the log, whole; in memory: the same rows by document. */
    ghost predicate Valid()
      reads this, disk
    {
      && Lossless(codec) && OneLine(header)
      && disk.present && disk.bytes == FileOf(codec, header, log)
      && rows == IndexOf(log)
      && |header| + 1 <= disk.synced <= |disk.bytes|
    }

    constructor (disk: Disk, codec: Codec, header: string, rows: map<int, Row>, ghost log: seq<Row>)
      ensures this.disk == disk && this.codec == codec && this.header == header
      ensures this.rows == rows && this.log == log
    {
      this.disk, this.codec, this.header, this.rows, this.log := disk, codec, header, rows, log;
    }

    /** `ShardFile.__init__`. A new file holds its header, synced. An existing one is refused
        untouched without `resume`; otherwise its torn tail is cut off first, and then it is
        whatever loading makes of it. If it is a crash image of the log `past` that holds the
        header, the object is valid on the whole rows that survived. */
    static method Open(disk: Disk, codec: Codec, header: string, id: string, resume: bool, ghost past: seq<Row>)
      returns (r: Result<ShardFile>)
      requires Lossless(codec) && OneLine(header) && codec.ident(header) == Some(id)
      modifies disk
      ensures !old(disk.present) ==> r.Ok? && r.value.Valid() && r.value.log == []
      ensures old(disk.present) && !resume ==> r.Err? && unchanged(disk)
      ensures old(disk.present) && resume ==>
        && disk.present && disk.bytes == Complete(old(disk.bytes))
        && match Load(codec, id, old(disk.bytes))
           case Err(_) => r.Err?
           case Ok(l) => r.Ok? && disk.bytes == l.bytes && r.value.rows == l.rows
      ensures r.Ok? ==> fresh(r.value) && r.value.disk == disk && r.value.codec == codec && r.value.header == header
      ensures old(disk.present) && resume && old(disk.bytes) <= FileOf(codec, header, past)
              && |header| < old(disk.synced) <= old(|disk.bytes|)
              ==> && r.Ok? && r.value.Valid()
                  && r.value.log == past[..WholeRows(codec, header, past, old(|disk.bytes|))]
    {
      if disk.present {
        if !resume {
          return Err("exists; pass --resume to continue it");
        }
        ghost var raw := disk.bytes;
        var loaded := Load(codec, id, disk.bytes);
        disk.bytes := Complete(disk.bytes);
        disk.synced := if disk.synced <= |disk.bytes| then disk.synced else |disk.bytes|;
        ghost var kept := past[..WholeRows(codec, header, past, |raw|)];
        if raw <= FileOf(codec, header, past) && |header| < |raw| {
          LoadCrashImage(codec, header, id, past, |raw|);
          assert FileOf(codec, header, past)[..|raw|] == raw;
        }
        if loaded.Err? {
          return Err(loaded.error);
        }
        var f := new ShardFile(disk, codec, header, loaded.value.rows, kept);
        return Ok(f);
      }
      disk.present, disk.bytes := true, header + ['\n'];
      disk.synced := |disk.bytes|;
      var f := new ShardFile(disk, codec, header, map[], []);
      assert FileOf(codec, header, []) == header + ['\n'] by {
        assert [header] + Lines(codec, []) == [header];
        assert Text([header]) == header + ['\n'] + Text([header][1..]);
      }
      r := Ok(f);
    }

    /** `append`: the line is flushed, and synced when a sync is due. */
    method Append(row: Row, due: bool)
      requires Valid()
      modifies this, disk
      ensures Valid() && log == old(log) + [row] && rows == old(rows)[row.index := row]
      ensures disk.synced == if due then |disk.bytes| else old(disk.synced)
      ensures disk.bytes == old(disk.bytes) + codec.enc(row) + ['\n']
    {
      AppendFile(codec, header, log, [row]);
      assert Text(Lines(codec, [row])) == codec.enc(row) + ['\n'] by {
        assert Lines(codec, [row]) == [codec.enc(row)];
      }
      disk.bytes := disk.bytes + codec.enc(row) + ['\n'];
      if due {
        disk.synced := |disk.bytes|;
      }
      rows := rows[row.index := row];
      log := log + [row];
      assert log[..|log| - 1] == old(log);
    }

    /** `close`: everything written is durable. */
    method Close()
      requires Valid()
      modifies disk
      ensures Valid() && disk.bytes == old(disk.bytes) && disk.synced == |disk.bytes|
    {
      disk.synced := |disk.bytes|;
    }
  }

}
