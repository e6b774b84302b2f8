/** The printed cell code and the cells file of `research/generate_families_k6.py`: decimal
    numbers, dots, commas and lines, and the readers that undo them. */
module CellText {
  import opened Sequences
  import opened ShardLog
  import opened Grammar

  // ---------------------------------------------------------------- decimal numbers

  function Digit(k: int): char
    requires 0 <= k < 10
  {
    "0123456789"[k]
  }

  function DigitValue(c: char): Option<int> {
    if '0' <= c <= '9' then Some(c as int - '0' as int) else None
  }

  /** `str(n)`. */
  function Print(n: nat): (s: string)
    ensures s != []
  {
    if n < 10 then [Digit(n)] else Print(n / 10) + [Digit(n % 10)]
  }

  /** `int(s)` of plain digits. */
  function ParseInt(s: string): Option<nat> {
    if s == [] then None
    else
      var last := DigitValue(s[|s| - 1]);
      if last.None? then None
      else if |s| == 1 then Some(last.value)
      else
        var front := ParseInt(s[..|s| - 1]);
        if front.None? then None else Some(front.value * 10 + last.value)
  }

  lemma {:induction false} ParsePrint(n: nat)
    ensures ParseInt(Print(n)) == Some(n)
  {
    if n >= 10 {
      ParsePrint(n / 10);
      ParseSnoc(Print(n / 10), Digit(n % 10), n / 10, n % 10);
    }
  }

  /** One more digit multiplies by ten. */
  lemma ParseSnoc(front: string, c: char, high: nat, low: int)
    requires front != [] && ParseInt(front) == Some(high) && DigitValue(c) == Some(low)
    ensures ParseInt(front + [c]) == Some(high * 10 + low)
  {
    var s := front + [c];
    assert s[..|s| - 1] == front;
  }

  predicate IsDigit(c: char) {
    '0' <= c <= '9'
  }

  lemma {:induction false} PrintDigits(n: nat)
    ensures forall c :: c in Print(n) ==> IsDigit(c)
  {
    if n >= 10 {
      PrintDigits(n / 10);
    }
  }

  // ---------------------------------------------------------------- separators

  /** `sep.join(parts)`. */
  function Join(parts: seq<string>, sep: char): string {
    if parts == [] then []
    else if |parts| == 1 then parts[0]
    else parts[0] + [sep] + Join(parts[1..], sep)
  }

  function Find(s: string, c: char): (k: nat)
    ensures k <= |s|
  {
    if s == [] || s[0] == c then 0 else 1 + Find(s[1..], c)
  }

  /** `s.split(sep)`: always at least one part. */
  function Split(s: string, sep: char): (parts: seq<string>)
    ensures parts != []
    decreases |s|
  {
    var k := Find(s, sep);
    if k == |s| then [s] else [s[..k]] + Split(s[k + 1..], sep)
  }

  lemma {:induction false} FindAt(a: string, c: char, b: string)
    requires c !in a
    ensures Find(a + [c] + b, c) == |a|
  {
    if a != [] {
      assert (a + [c] + b)[1..] == a[1..] + [c] + b;
      assert a[0] in a;
      FindAt(a[1..], c, b);
    }
  }

  lemma {:induction false} FindNone(a: string, c: char)
    requires c !in a
    ensures Find(a, c) == |a|
  {
    if a != [] {
      assert a[0] in a;
      FindNone(a[1..], c);
    }
  }

  /** Splitting undoes joining when no part holds the separator. */
  lemma {:induction false} SplitJoin(parts: seq<string>, sep: char)
    requires parts != [] && forall i :: 0 <= i < |parts| ==> sep !in parts[i]
    ensures Split(Join(parts, sep), sep) == parts
  {
    if |parts| == 1 {
      FindNone(parts[0], sep);
    } else {
      var a, b := parts[0], Join(parts[1..], sep);
      FindAt(a, sep, b);
      SplitJoin(parts[1..], sep);
      var s := Join(parts, sep);
      assert s[..|a|] == a && s[|a| + 1..] == b;
    }
  }

  lemma {:induction false} JoinChars(parts: seq<string>, sep: char, c: char)
    requires c != sep && forall i :: 0 <= i < |parts| ==> c !in parts[i]
    ensures c !in Join(parts, sep)
  {
    if |parts| > 1 {
      JoinChars(parts[1..], sep, c);
    }
  }

  // ---------------------------------------------------------------- the cell code

  function PrintAll(digits: seq<int>): (parts: seq<string>)
    requires forall i :: 0 <= i < |digits| ==> 0 <= digits[i]
    ensures |parts| == |digits|
  {
    seq(|digits|, i requires 0 <= i < |digits| => Print(digits[i]))
  }

  /** `Cell.code`. */
  function Code(axes: Axes, c: Cell): string
    requires InGrammar(axes, c)
  {
    Join(PrintAll(Positions(axes, c)), '.')
  }

  function ParseAll(parts: seq<string>): Option<seq<int>> {
    if parts == [] then Some([])
    else
      var k, rest := ParseInt(parts[0]), ParseAll(parts[1..]);
      if k.None? || rest.None? then None else Some([k.value] + rest.value)
  }

  /** `Cell.from_code`: refused unless it names one value of every axis. */
  function FromCode(axes: Axes, code: string): (r: Result<Cell>)
    ensures r.Ok? ==> InGrammar(axes, r.value)
  {
    var digits := ParseAll(Split(code, '.'));
    if digits.None? then Err("not a number")
    else if |digits.value| != |axes| then Err("bad cell code")
    else if !Choices(Radices(axes), digits.value) then Err("no such value on an axis")
    else Ok(Named(axes, digits.value))
  }

  lemma {:induction false} ParsePrintAll(digits: seq<int>)
    requires forall i :: 0 <= i < |digits| ==> 0 <= digits[i]
    ensures ParseAll(PrintAll(digits)) == Some(digits)
  {
    if digits != [] {
      ParsePrint(digits[0]);
      ParsePrintAll(digits[1..]);
      assert PrintAll(digits)[1..] == PrintAll(digits[1..]);
      assert digits == [digits[0]] + digits[1..];
    }
  }

  lemma PrintedFree(digits: seq<int>, c: char)
    requires !IsDigit(c) && forall i :: 0 <= i < |digits| ==> 0 <= digits[i]
    ensures forall i :: 0 <= i < |digits| ==> c !in PrintAll(digits)[i]
  {
    forall i | 0 <= i < |digits| ensures c !in PrintAll(digits)[i] {
      PrintDigits(digits[i]);
    }
  }

  /** A cell's code names that cell and no other. */
  lemma FromCodeUndoesCode(axes: Axes, c: Cell)
    requires axes != [] && InGrammar(axes, c)
    ensures FromCode(axes, Code(axes, c)) == Ok(c)
  {
    var digits := Positions(axes, c);
    PrintedFree(digits, '.');
    SplitJoin(PrintAll(digits), '.');
    ParsePrintAll(digits);
    NamedOfPositions(axes, c);
  }

  lemma CodeChars(axes: Axes, c: Cell, x: char)
    requires InGrammar(axes, c) && !IsDigit(x) && x != '.'
    ensures x !in Code(axes, c)
  {
    PrintedFree(Positions(axes, c), x);
    JoinChars(PrintAll(Positions(axes, c)), '.', x);
  }

  // ---------------------------------------------------------------- the cells file

  /** A kept cell and its number. */
  datatype Kept = Kept(index: nat, cell: Cell)

  predicate AllInGrammar(axes: Axes, kept: seq<Kept>) {
    forall i :: 0 <= i < |kept| ==> InGrammar(axes, kept[i].cell)
  }

  function Line(axes: Axes, k: Kept): string
    requires InGrammar(axes, k.cell)
  {
    Join([Print(k.index), Code(axes, k.cell)], ',')
  }

  function BodyLines(axes: Axes, kept: seq<Kept>): (ls: seq<string>)
    requires AllInGrammar(axes, kept)
    ensures |ls| == |kept|
  {
    seq(|kept|, i requires 0 <= i < |kept| => Line(axes, kept[i]))
  }

  /** `_cells_text`. */
  function CellsText(axes: Axes, kept: seq<Kept>): string
    requires AllInGrammar(axes, kept)
  {
    Text(["index,cell_code"] + BodyLines(axes, kept))
  }

  function ReadLine(axes: Axes, line: string): Result<Kept> {
    var fields := Split(line, ',');
    if |fields| != 2 then Err("not two fields")
    else
      var i, c := ParseInt(fields[0]), FromCode(axes, fields[1]);
      if i.None? then Err("not a number") else if c.Err? then Err(c.error) else Ok(Kept(i.value, c.value))
  }

  function ReadBody(axes: Axes, lines: seq<string>): Result<seq<Kept>> {
    if lines == [] then Ok([])
    else
      var k, rest := ReadLine(axes, lines[0]), ReadBody(axes, lines[1..]);
      if k.Err? then Err(k.error) else if rest.Err? then rest else Ok([k.value] + rest.value)
  }

  /** `read_cells`: the text must match the digest its manifest records. */
  function ReadCells(axes: Axes, text: string, recorded: string, digest: string -> string): Result<seq<Kept>> {
    if digest(text) != recorded then Err("does not match its manifest")
    else
      var lines := SplitLines(text);
      if lines == [] then Ok([]) else ReadBody(axes, lines[1..])
  }

  lemma ReadLineUndoes(axes: Axes, k: Kept)
    requires axes != [] && InGrammar(axes, k.cell)
    ensures ReadLine(axes, Line(axes, k)) == Ok(k) && OneLine(Line(axes, k))
  {
    var fields := [Print(k.index), Code(axes, k.cell)];
    PrintDigits(k.index);
    CodeChars(axes, k.cell, ',');
    CodeChars(axes, k.cell, '\n');
    SplitJoin(fields, ',');
    JoinChars(fields, ',', '\n');
    ParsePrint(k.index);
    FromCodeUndoesCode(axes, k.cell);
  }

  lemma BodyLinesCons(axes: Axes, kept: seq<Kept>)
    requires AllInGrammar(axes, kept) && kept != []
    ensures BodyLines(axes, kept)[0] == Line(axes, kept[0])
    ensures AllInGrammar(axes, kept[1..]) && BodyLines(axes, kept)[1..] == BodyLines(axes, kept[1..])
  {
  }

  lemma ReadBodyCons(axes: Axes, lines: seq<string>, k: Kept, rest: seq<Kept>)
    requires lines != [] && ReadLine(axes, lines[0]) == Ok(k) && ReadBody(axes, lines[1..]) == Ok(rest)
    ensures ReadBody(axes, lines) == Ok([k] + rest)
  {
  }

  lemma {:induction false} ReadBodyUndoes(axes: Axes, kept: seq<Kept>)
    requires axes != [] && AllInGrammar(axes, kept)
    ensures ReadBody(axes, BodyLines(axes, kept)) == Ok(kept)
  {
    if kept != [] {
      BodyLinesCons(axes, kept);
      ReadLineUndoes(axes, kept[0]);
      ReadBodyUndoes(axes, kept[1..]);
      ReadBodyCons(axes, BodyLines(axes, kept), kept[0], kept[1..]);
      assert kept == [kept[0]] + kept[1..];
    }
  }

  lemma BodyLinesWhole(axes: Axes, kept: seq<Kept>)
    requires axes != [] && AllInGrammar(axes, kept)
    ensures AllOneLine(BodyLines(axes, kept))
  {
    forall i | 0 <= i < |kept| ensures OneLine(BodyLines(axes, kept)[i]) {
      ReadLineUndoes(axes, kept[i]);
    }
  }

  /** Reading back the written cells returns the kept list unchanged. */
  lemma ReadCellsUndoesText(axes: Axes, kept: seq<Kept>, digest: string -> string)
    requires axes != [] && AllInGrammar(axes, kept)
    ensures ReadCells(axes, CellsText(axes, kept), digest(CellsText(axes, kept)), digest) == Ok(kept)
  {
    var lines := ["index,cell_code"] + BodyLines(axes, kept);
    ReadBodyUndoes(axes, kept);
    BodyLinesWhole(axes, kept);
    SplitText(lines);
    assert lines[1..] == BodyLines(axes, kept);
  }
}
