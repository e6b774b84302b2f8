/** The scanner of `scripts/check_live_flags.py` over classified lines: a single pass with a
    pending key, against its declarative reading. The regular expressions that classify a
    line are not part of this model. */
module LiveFlags {
  import opened Sequences

  /** `- key: NAME`, and whether NAME names a live-execution flag. */
  datatype Key = Key(name: string, isFlag: bool)

  /** `value: ...`, and whether it is a literal that means "on". */
  datatype Value = Value(text: string, truthy: bool)

  /** A one-line assignment. */
  datatype Assignment = Assignment(key: string, isFlag: bool, text: string, truthy: bool)

  /** What the scanner sees of a line. `skippable` means blank or a comment. */
  datatype Line = Line(
    allowed: bool, key: Option<Key>, value: Option<Value>, skippable: bool, assignment: Option<Assignment>)

  datatype Finding = Finding(line: nat, key: string, value: string)

  // ---------------------------------------------------------------- the declarative reading

  /** An unmarked key line that names a flag. */
  predicate NamesFlag(l: Line) {
    !l.allowed && l.key.Some? && l.key.value.isFlag
  }

  /** An unmarked blank or comment line: it neither opens, closes nor consumes anything. */
  predicate Transparent(l: Line) {
    !l.allowed && l.key.None? && l.value.None? && l.skippable
  }

  /** Line j names a flag, and only transparent lines separate it from line i. */
  ghost predicate Governs(lines: seq<Line>, j: nat, i: nat)
    requires i <= |lines|
  {
    j < i && NamesFlag(lines[j]) && forall k :: j < k < i ==> Transparent(lines[k])
  }

  ghost predicate Governed(lines: seq<Line>, i: nat)
    requires i <= |lines|
  {
    exists j: nat :: Governs(lines, j, i)
  }

  /** Line i is reported as f: it is a truthy value of a flag that governs it, or a truthy
      one-line flag assignment that no pending key consumes as its value. */
  ghost predicate Reported(lines: seq<Line>, i: nat, f: Finding)
    requires i < |lines|
  {
    var l := lines[i];
    && !l.allowed && l.key.None?
    && (|| (&& l.value.Some? && l.value.value.truthy
            && exists j: nat ::
                 Governs(lines, j, i) && f == Finding(i + 1, lines[j].key.value.name, l.value.value.text))
        || (&& !(l.value.Some? && Governed(lines, i))
            && l.assignment.Some? && l.assignment.value.isFlag && l.assignment.value.truthy
            && f == Finding(i + 1, l.assignment.value.key, l.assignment.value.text)))
  }

  lemma GovernorUnique(lines: seq<Line>, i: nat, j: nat, k: nat)
    requires i <= |lines| && Governs(lines, j, i) && Governs(lines, k, i)
    ensures j == k
  {
    assert NamesFlag(lines[j]) && NamesFlag(lines[k]);
  }

  // ---------------------------------------------------------------- the automaton

  /** The pending key is exactly the governing one. */
  ghost predicate Tracks(pending: Option<string>, lines: seq<Line>, i: nat)
    requires i <= |lines|
  {
    && (pending.None? ==> !Governed(lines, i))
    && (pending.Some? ==> exists j: nat :: Governs(lines, j, i) && lines[j].key.value.name == pending.value)
  }

  lemma TracksStep(pending: Option<string>, lines: seq<Line>, i: nat)
    requires i < |lines| && Tracks(pending, lines, i)
    ensures Tracks(
      if NamesFlag(lines[i]) then Some(lines[i].key.value.name) else if Transparent(lines[i]) then pending else None,
      lines, i + 1)
  {
    var next := i + 1;
    if NamesFlag(lines[i]) {
      assert Governs(lines, i, next);
    } else if Transparent(lines[i]) {
      if pending.Some? {
        var j: nat :| Governs(lines, j, i) && lines[j].key.value.name == pending.value;
        assert Governs(lines, j, next);
      } else {
        forall j: nat ensures !Governs(lines, j, next) {
          assert j < i ==> (Governs(lines, j, next) ==> Governs(lines, j, i));
        }
      }
    } else {
      forall j: nat ensures !Governs(lines, j, next) {
      }
    }
  }

  /** What the loop body adds for one line. */
  function Emit(pending: Option<string>, l: Line, i: nat): seq<Finding> {
    if l.allowed || l.key.Some? then []
    else if pending.Some? && l.value.Some? then
      if l.value.value.truthy then [Finding(i + 1, pending.value, l.value.value.text)] else []
    else if l.assignment.Some? && l.assignment.value.isFlag && l.assignment.value.truthy then
      [Finding(i + 1, l.assignment.value.key, l.assignment.value.text)]
    else []
  }

  lemma EmitIsReported(pending: Option<string>, lines: seq<Line>, i: nat)
    requires i < |lines| && Tracks(pending, lines, i)
    ensures forall f :: f in Emit(pending, lines[i], i) <==> Reported(lines, i, f)
  {
    var l := lines[i];
    if pending.Some? {
      var j: nat :| Governs(lines, j, i) && lines[j].key.value.name == pending.value;
      forall k: nat | Governs(lines, k, i) ensures k == j {
        GovernorUnique(lines, i, j, k);
      }
    }
  }

  /** The findings so far: exactly the reported lines before i, in increasing order. */
  ghost predicate Complete(findings: seq<Finding>, lines: seq<Line>, i: nat)
    requires i <= |lines|
  {
    && (forall f :: f in findings <==> exists k: nat :: k < i && Reported(lines, k, f))
    && (forall a, b :: 0 <= a < b < |findings| ==> findings[a].line < findings[b].line)
    && (forall a :: 0 <= a < |findings| ==> findings[a].line <= i)
  }

  lemma CompleteStep(findings: seq<Finding>, more: seq<Finding>, lines: seq<Line>, i: nat)
    requires i < |lines| && Complete(findings, lines, i) && |more| <= 1
    requires forall f :: f in more <==> Reported(lines, i, f)
    ensures Complete(findings + more, lines, i + 1)
  {
    forall f ensures f in findings + more <==> exists k: nat :: k < i + 1 && Reported(lines, k, f) {
      if f in findings {
        var k: nat :| k < i && Reported(lines, k, f);
      }
      if f in more {
        assert Reported(lines, i, f);
      }
      if k: nat :| k < i + 1 && Reported(lines, k, f) {
        assert k == i || k < i;
      }
    }
    if more != [] {
      var f := more[0];
      assert f in more;
      assert f.line == i + 1;
    }
  }

  /** `scan_text`: one pass over the lines. */
  method Scan(lines: seq<Line>) returns (findings: seq<Finding>)
    ensures forall f :: f in findings <==> exists i: nat :: i < |lines| && Reported(lines, i, f)
    ensures forall a, b :: 0 <= a < b < |findings| ==> findings[a].line < findings[b].line
  {
    findings := [];
    var pending: Option<string> := None;
    for i := 0 to |lines|
      invariant Tracks(pending, lines, i) && Complete(findings, lines, i)
    {
      var l := lines[i];
      TracksStep(pending, lines, i);
      EmitIsReported(pending, lines, i);
      CompleteStep(findings, Emit(pending, l, i), lines, i);
      if l.allowed {
        pending := None;
        continue;
      }
      if l.key.Some? {
        pending := if l.key.value.isFlag then Some(l.key.value.name) else None;
        continue;
      }
      if pending.Some? {
        if l.value.Some? {
          if l.value.value.truthy {
            findings := findings + [Finding(i + 1, pending.value, l.value.value.text)];
          }
          pending := None;
          continue;
        }
        if !l.skippable {
          pending := None;
        }
      }
      if l.assignment.Some? && l.assignment.value.isFlag && l.assignment.value.truthy {
        findings := findings + [Finding(i + 1, l.assignment.value.key, l.assignment.value.text)];
      }
    }
  }
}
