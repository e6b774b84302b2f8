/** `scripts/lockfile.py`: the printed lockfile, its parser, and the verifier that compares the
    running environment with it. */
module Lockfile {
  import opened Sequences
  import opened ShardLog

  type Packages = map<string, string>

  // ---------------------------------------------------------------- characters and lines

  predicate IsSpace(c: char) {
    var k := c as int;
    || 0x09 <= k <= 0x0D || 0x1C <= k <= 0x20 || k == 0x85 || k == 0xA0 || k == 0x1680
    || 0x2000 <= k <= 0x200A || k == 0x2028 || k == 0x2029 || k == 0x202F || k == 0x205F || k == 0x3000
  }

  /** The characters `str.splitlines` breaks at. */
  predicate IsBreak(c: char) {
    var k := c as int;
    0x0A <= k <= 0x0D || 0x1C <= k <= 0x1E || k == 0x85 || k == 0x2028 || k == 0x2029
  }

  predicate Unbroken(s: string) {
    forall i :: 0 <= i < |s| ==> !IsBreak(s[i])
  }

  function NextBreak(s: string): (k: nat)
    ensures k <= |s| && (k < |s| ==> IsBreak(s[k]))
  {
    if s == [] || IsBreak(s[0]) then 0 else 1 + NextBreak(s[1..])
  }

  /** `str.splitlines`: a carriage return before a newline is one break with it. */
  function PyLines(s: string): seq<string>
    decreases |s|
  {
    if s == [] then []
    else
      var k := NextBreak(s);
      if k == |s| then [s]
      else if s[k] == '\r' && k + 1 < |s| && s[k + 1] == '\n' then [s[..k]] + PyLines(s[k + 2..])
      else [s[..k]] + PyLines(s[k + 1..])
  }

  /** The characters of both kinds, listed. */
  lemma SpacesListed(c: char)
    ensures IsBreak(c) <==> c as int in {0x0A, 0x0B, 0x0C, 0x0D, 0x1C, 0x1D, 0x1E, 0x85, 0x2028, 0x2029}
    ensures IsSpace(c) <==> IsBreak(c) || c as int in {
      0x09, 0x1F, 0x20, 0xA0, 0x1680, 0x2000, 0x2001, 0x2002, 0x2003, 0x2004, 0x2005, 0x2006, 0x2007, 0x2008, 0x2009,
      0x200A, 0x202F, 0x205F, 0x3000}
  {
  }

  /** Lines put together again, each with the break that ended it. */
  function Joined(lines: seq<string>, breaks: seq<string>): string
    requires |lines| == |breaks|
  {
    if lines == [] then [] else lines[0] + breaks[0] + Joined(lines[1..], breaks[1..])
  }

  /** A line break; only the last of the text may be absent, and then its line is not empty. */
  ghost predicate EndsLine(lines: seq<string>, breaks: seq<string>, i: int)
    requires |lines| == |breaks| && 0 <= i < |lines|
  {
    || breaks[i] == ['\r', '\n']
    || (|breaks[i]| == 1 && IsBreak(breaks[i][0]))
    || (breaks[i] == [] && i == |lines| - 1 && lines[i] != [])
  }

  lemma {:induction false} UpToBreak(s: string)
    ensures Unbroken(s[..NextBreak(s)])
  {
    if s != [] && !IsBreak(s[0]) {
      UpToBreak(s[1..]);
      assert s[..NextBreak(s)] == [s[0]] + s[1..][..NextBreak(s[1..])];
    }
  }

  /** The lines of a text with their breaks: no line holds a break, the two make the text again,
      and a carriage return is never parted from a newline that follows it. */
  ghost predicate Splits(s: string, lines: seq<string>, breaks: seq<string>) {
    && |lines| == |breaks| && Joined(lines, breaks) == s
    && (forall i :: 0 <= i < |lines| ==> Unbroken(lines[i]) && EndsLine(lines, breaks, i))
    && (forall i :: 0 <= i < |lines| - 1 && breaks[i] == ['\r'] ==> !(lines[i + 1] == [] && breaks[i + 1] == ['\n']))
  }

  lemma EndsLineCons(line: string, head: string, lines: seq<string>, breaks: seq<string>, i: nat)
    requires |lines| == |breaks| && 0 < i <= |lines| && EndsLine(lines, breaks, i - 1)
    ensures EndsLine([line] + lines, [head] + breaks, i)
  {
    assert ([line] + lines)[i] == lines[i - 1] && ([head] + breaks)[i] == breaks[i - 1];
  }

  lemma SplitCons(line: string, head: string, s: string, lines: seq<string>, breaks: seq<string>)
    requires Splits(s, lines, breaks) && Unbroken(line)
    requires head == ['\r', '\n'] || (|head| == 1 && IsBreak(head[0]))
    requires head == ['\r'] && s != [] ==> s[0] != '\n'
    ensures Splits(line + head + s, [line] + lines, [head] + breaks)
  {
    var ls, bs := [line] + lines, [head] + breaks;
    assert ls[1..] == lines && bs[1..] == breaks;
    assert Joined(ls, bs) == line + head + s;
    forall i | 0 < i < |ls| ensures Unbroken(ls[i]) && EndsLine(ls, bs, i) {
      EndsLineCons(line, head, lines, breaks, i);
    }
    assert lines != [] ==> s == lines[0] + breaks[0] + Joined(lines[1..], breaks[1..]);
  }

  /** The first line of a text and the break that ends it. */
  lemma FirstLine(s: string) returns (head: string, rest: string)
    requires NextBreak(s) < |s|
    ensures s == s[..NextBreak(s)] + head + rest && |rest| < |s|
    ensures head == ['\r', '\n'] || (|head| == 1 && IsBreak(head[0]))
    ensures head == ['\r'] && rest != [] ==> rest[0] != '\n'
    ensures PyLines(s) == [s[..NextBreak(s)]] + PyLines(rest)
  {
    var k := NextBreak(s);
    if s[k] == '\r' && k + 1 < |s| && s[k + 1] == '\n' {
      head, rest := ['\r', '\n'], s[k + 2..];
    } else {
      head, rest := [s[k]], s[k + 1..];
    }
  }

  /** Splitting a text into lines loses nothing. */
  lemma {:induction false} PyLinesSplits(s: string) returns (breaks: seq<string>)
    ensures Splits(s, PyLines(s), breaks)
    decreases |s|
  {
    UpToBreak(s);
    if s == [] {
      breaks := [];
    } else if NextBreak(s) == |s| {
      breaks := [[]];
      assert s[..|s|] == s && [s][1..] == [] && breaks[1..] == [];
    } else {
      var head, rest := FirstLine(s);
      var more := PyLinesSplits(rest);
      breaks := [head] + more;
      SplitCons(s[..NextBreak(s)], head, rest, PyLines(rest), more);
    }
  }

  lemma {:induction false} NextBreakAt(a: string, b: string)
    requires Unbroken(a)
    ensures NextBreak(a + ['\n'] + b) == |a|
  {
    if a != [] {
      assert (a + ['\n'] + b)[1..] == a[1..] + ['\n'] + b;
      NextBreakAt(a[1..], b);
    }
  }

  /** Splitting undoes joining whole lines. */
  lemma {:induction false} PyLinesOfText(lines: seq<string>)
    requires forall i :: 0 <= i < |lines| ==> Unbroken(lines[i])
    ensures PyLines(Text(lines)) == lines
  {
    if lines != [] {
      var a, b := lines[0], Text(lines[1..]);
      PyLinesOfText(lines[1..]);
      NextBreakAt(a, b);
      var s := Text(lines);
      assert s == a + ['\n'] + b;
      assert s[|a|] == '\n' && s[..|a|] == a && s[|a| + 1..] == b;
    }
  }

  function LStrip(s: string): string {
    if s != [] && IsSpace(s[0]) then LStrip(s[1..]) else s
  }

  function RStrip(s: string): string {
    if s != [] && IsSpace(s[|s| - 1]) then RStrip(s[..|s| - 1]) else s
  }

  function Strip(s: string): string {
    RStrip(LStrip(s))
  }

  /** `s.lstrip("# ")`. */
  function LStripHash(s: string): string {
    if s != [] && (s[0] == '#' || s[0] == ' ') then LStripHash(s[1..]) else s
  }

  /** No space at either end. */
  predicate Stripped(s: string) {
    s != [] ==> !IsSpace(s[0]) && !IsSpace(s[|s| - 1])
  }

  lemma StripSame(s: string)
    requires Stripped(s)
    ensures Strip(s) == s
  {
  }

  /** What `partition` cuts a string into; `rest` is empty when the separator is absent. */
  datatype Cut = Cut(head: string, rest: string)

  function CutColon(s: string): Cut {
    if s == [] then Cut([], [])
    else if s[0] == ':' then Cut([], s[1..])
    else var c := CutColon(s[1..]); Cut([s[0]] + c.head, c.rest)
  }

  function CutEquals(s: string): Cut {
    if s == [] then Cut([], [])
    else if |s| >= 2 && s[0] == '=' && s[1] == '=' then Cut([], s[2..])
    else var c := CutEquals(s[1..]); Cut([s[0]] + c.head, c.rest)
  }

  lemma {:induction false} CutColonAt(a: string, b: string)
    requires ':' !in a
    ensures CutColon(a + [':'] + b) == Cut(a, b)
  {
    var s := a + [':'] + b;
    if a == [] {
      assert s[1..] == b;
    } else {
      assert s[1..] == a[1..] + [':'] + b;
      assert a[0] in a;
      CutColonAt(a[1..], b);
      assert a == [a[0]] + a[1..];
    }
  }

  lemma {:induction false} CutColonNone(a: string)
    requires ':' !in a
    ensures CutColon(a) == Cut(a, [])
  {
    if a != [] {
      assert a[0] in a;
      CutColonNone(a[1..]);
      assert a == [a[0]] + a[1..];
    }
  }

  lemma {:induction false} CutEqualsAt(a: string, b: string)
    requires '=' !in a
    ensures CutEquals(a + ['=', '='] + b) == Cut(a, b)
  {
    var s := a + ['=', '='] + b;
    if a == [] {
      assert s[2..] == b;
    } else {
      assert s[1..] == a[1..] + ['=', '='] + b;
      assert a[0] in a;
      CutEqualsAt(a[1..], b);
      assert a == [a[0]] + a[1..];
    }
  }

  // ---------------------------------------------------------------- names

  function NormaliseChar(c: char): char {
    if 'A' <= c <= 'Z' then (c as int + 32) as char
    else if c == '_' || c == '.' then '-'
    else c
  }

  /** `_normalise`. */
  function Normalise(name: string): (r: string)
    ensures |r| == |name|
  {
    seq(|name|, i requires 0 <= i < |name| => NormaliseChar(name[i]))
  }

  lemma NormaliseIdempotent(name: string)
    ensures Normalise(Normalise(name)) == Normalise(name)
  {
  }

  /** Two characters that normalising does not tell apart. */
  ghost predicate SameLetter(a: char, b: char) {
    || a == b
    || (a in {'-', '_', '.'} && b in {'-', '_', '.'})
    || ('A' <= a <= 'Z' && b as int == a as int - 'A' as int + 'a' as int)
    || ('A' <= b <= 'Z' && a as int == b as int - 'A' as int + 'a' as int)
  }

  /** Names normalise alike exactly when they differ only in case and in which of '-', '_' and
      '.' they use; the normal form has no capital, underscore or dot. */
  lemma NormaliseMerges(a: string, b: string)
    ensures Normalise(a) == Normalise(b) <==> |a| == |b| && forall i :: 0 <= i < |a| ==> SameLetter(a[i], b[i])
    ensures forall c :: c in Normalise(a) ==> !('A' <= c <= 'Z') && c != '_' && c != '.'
  {
    var x, y := Normalise(a), Normalise(b);
    if |a| == |b| {
      forall i | 0 <= i < |a| ensures x[i] == y[i] <==> SameLetter(a[i], b[i]) {
        assert x[i] == NormaliseChar(a[i]) && y[i] == NormaliseChar(b[i]);
      }
      if x == y {
        forall i | 0 <= i < |a| ensures SameLetter(a[i], b[i]) {
          assert x[i] == y[i];
        }
      }
    }
  }

  /** A name that survives printing: no space, break, '=' or leading '#'. */
  predicate GoodName(n: string) {
    n != [] && n[0] != '#' && forall i :: 0 <= i < |n| ==> !IsSpace(n[i]) && n[i] != '='
  }

  /** A version that survives printing: one line with no trailing space. */
  predicate GoodVersion(v: string) {
    Unbroken(v) && (v != [] ==> !IsSpace(v[|v| - 1]))
  }

  lemma NormaliseGood(n: string)
    requires GoodName(n)
    ensures GoodName(Normalise(n))
  {
  }

  // ---------------------------------------------------------------- printing

  datatype Lock = Lock(packages: Packages, python: string, platform: string, recordedAt: string, digest: string)

  /** Lexicographic order of strings. */
  predicate LexLe(a: string, b: string) {
    a == [] || (b != [] && (a[0] < b[0] || (a[0] == b[0] && LexLe(a[1..], b[1..]))))
  }

  ghost function Listed(s: set<string>): seq<string> {
    if s == {} then [] else var x :| x in s; [x] + Listed(s - {x})
  }

  /** The package names in order. */
  ghost function Names(p: Packages): seq<string> {
    SortBy(Listed(p.Keys), LexLe)
  }

  lemma {:induction false} ListedExactly(s: set<string>)
    ensures forall x :: x in Listed(s) <==> x in s
  {
    if s != {} {
      var x := Listed(s)[0];
      assert x in s && Listed(s) == [x] + Listed(s - {x});
      ListedExactly(s - {x});
    }
  }

  lemma NamesExactly(p: Packages)
    ensures forall n :: n in Names(p) <==> n in p
  {
    ListedExactly(p.Keys);
    SortKeeps(Listed(p.Keys), LexLe);
  }

  /** At the first place where they differ, k, a has the smaller character, or ends. */
  ghost predicate BeforeAt(a: string, b: string, k: int) {
    0 <= k <= |a| && k < |b| && a[..k] == b[..k] && (k == |a| || a[k] < b[k])
  }

  ghost predicate LexBefore(a: string, b: string) {
    exists k :: BeforeAt(a, b, k)
  }

  lemma BeforeAtTail(a: string, b: string, k: int)
    requires a != [] && b != []
    ensures BeforeAt(a, b, k + 1) && k >= 0 <==> a[0] == b[0] && BeforeAt(a[1..], b[1..], k)
  {
    if 0 <= k < |a| && k + 1 < |b| {
      assert a[..k + 1] == [a[0]] + a[1..][..k] && b[..k + 1] == [b[0]] + b[1..][..k];
      if a[..k + 1] == b[..k + 1] {
        assert a[0] == a[..k + 1][0] && b[0] == b[..k + 1][0];
        assert a[1..][..k] == a[..k + 1][1..] && b[1..][..k] == b[..k + 1][1..];
      }
    }
  }

  lemma LexBeforeStep(a: string, b: string)
    requires a != [] && b != []
    ensures LexBefore(a, b) <==> a[0] < b[0] || (a[0] == b[0] && LexBefore(a[1..], b[1..]))
  {
    if LexBefore(a, b) {
      var k :| BeforeAt(a, b, k);
      if k > 0 {
        BeforeAtTail(a, b, k - 1);
      }
    }
    if a[0] < b[0] {
      assert BeforeAt(a, b, 0);
    }
    if a[0] == b[0] && LexBefore(a[1..], b[1..]) {
      var k :| BeforeAt(a[1..], b[1..], k);
      BeforeAtTail(a, b, k);
    }
  }

  lemma {:induction false} LexLeIsBefore(a: string, b: string)
    ensures LexLe(a, b) <==> a == b || LexBefore(a, b)
  {
    if a == [] {
      if b != [] {
        assert BeforeAt(a, b, 0);
      }
    } else if b != [] {
      LexLeIsBefore(a[1..], b[1..]);
      LexBeforeStep(a, b);
      assert a == [a[0]] + a[1..] && b == [b[0]] + b[1..];
    }
  }

  lemma {:induction false} LexTransitive(a: string, b: string, c: string)
    requires LexLe(a, b) && LexLe(b, c)
    ensures LexLe(a, c)
  {
    if a != [] && a[0] == b[0] == c[0] {
      LexTransitive(a[1..], b[1..], c[1..]);
    }
  }

  lemma {:induction false} LexTotal(a: string, b: string)
    ensures LexLe(a, b) || LexLe(b, a)
  {
    if a != [] && b != [] && a[0] == b[0] {
      LexTotal(a[1..], b[1..]);
    }
  }

  lemma LexPreorder()
    ensures TotalPreorder(LexLe)
  {
    forall a: string, b: string ensures LexLe(a, b) || LexLe(b, a) {
      LexTotal(a, b);
    }
    forall a: string, b: string, c: string | LexLe(a, b) && LexLe(b, c) ensures LexLe(a, c) {
      LexTransitive(a, b, c);
    }
  }

  lemma {:induction false} ListedOnce(s: set<string>)
    ensures NoRepeats(Listed(s))
  {
    if s != {} {
      var x := Listed(s)[0];
      assert x in s && Listed(s) == [x] + Listed(s - {x});
      ListedOnce(s - {x});
      ListedExactly(s - {x});
    }
  }

  /** The packages are printed in strict lexicographic order of their names, each once. */
  lemma NamesInOrder(p: Packages)
    ensures forall n :: n in Names(p) <==> n in p
    ensures forall i, j :: 0 <= i < j < |Names(p)| ==> LexBefore(Names(p)[i], Names(p)[j])
  {
    NamesExactly(p);
    LexPreorder();
    ListedOnce(p.Keys);
    SortSorts(Listed(p.Keys), LexLe);
    SortKeeps(Listed(p.Keys), LexLe);
    NoRepeatsKept(Listed(p.Keys), Names(p));
    forall i, j | 0 <= i < j < |Names(p)| ensures LexBefore(Names(p)[i], Names(p)[j]) {
      LexLeIsBefore(Names(p)[i], Names(p)[j]);
    }
  }

  function BodyLine(name: string, version: string): string {
    name + ['=', '='] + version
  }

  function BodyLines(names: seq<string>, p: Packages): (ls: seq<string>)
    requires forall n :: n in names ==> n in p
    ensures |ls| == |names|
  {
    seq(|names|, i requires 0 <= i < |names| => BodyLine(names[i], p[names[i]]))
  }

  function MetaLine(key: string, value: string): string {
    "# " + key + ": " + value
  }

  const TITLE: string := "fiboki dependency lockfile -- GENERATED, do not hand-edit."

  /** An empty digest is filled in. */
  function Filled(l: Lock, digest: Packages -> string): Lock {
    if l.digest == [] then l.(digest := digest(l.packages)) else l
  }

  /** A metadata entry: its key and value. */
  datatype Entry = Entry(key: string, value: string)

  const REGENERATE: Entry := Entry("Regenerate with", "python scripts/lockfile.py record")

  function Entries(l: Lock): seq<Entry> {
    [ REGENERATE, Entry("python", l.python), Entry("platform", l.platform),
      Entry("recorded_at", l.recordedAt), Entry("digest", l.digest) ]
  }

  function EntryLines(es: seq<Entry>): (ls: seq<string>)
    ensures |ls| == |es|
  {
    seq(|es|, i requires 0 <= i < |es| => MetaLine(es[i].key, es[i].value))
  }

  function HeaderLines(l: Lock): seq<string> {
    ["# " + TITLE] + EntryLines(Entries(l)) + [""]
  }

  /** `Lockfile.to_text`. */
  ghost function ToText(l: Lock, digest: Packages -> string): string {
    NamesExactly(l.packages);
    Text(HeaderLines(Filled(l, digest)) + BodyLines(Names(l.packages), l.packages))
  }

  // ---------------------------------------------------------------- parsing

  datatype Parsed = Parsed(packages: Packages, meta: Packages)

  /** One turn of the parser's loop. */
  function ParseLine(st: Parsed, line: string): Parsed {
    var s := Strip(line);
    if s == [] then st
    else if s[0] == '#' then
      var c := CutColon(LStripHash(s));
      if c.rest == [] then st else st.(meta := st.meta[Strip(c.head) := Strip(c.rest)])
    else
      var c := CutEquals(s);
      if c.head == [] then st else st.(packages := st.packages[Normalise(c.head) := c.rest])
  }

  function ParseLines(st: Parsed, lines: seq<string>): Parsed
    decreases |lines|
  {
    if lines == [] then st else ParseLines(ParseLine(st, lines[0]), lines[1..])
  }

  function Meta(st: Parsed, key: string): string {
    if key in st.meta then st.meta[key] else ""
  }

  function Finish(st: Parsed): Lock {
    Lock(st.packages, Meta(st, "python"), Meta(st, "platform"), Meta(st, "recorded_at"), Meta(st, "digest"))
  }

  const START: Parsed := Parsed(map[], map[])

  /** `Lockfile.parse`. */
  method Parse(text: string) returns (l: Lock)
    ensures l == Finish(ParseLines(START, PyLines(text)))
  {
    var lines := PyLines(text);
    var st := START;
    for i := 0 to |lines|
      invariant ParseLines(st, lines[i..]) == ParseLines(START, lines)
    {
      assert lines[i..][1..] == lines[i + 1..];
      st := ParseLine(st, lines[i]);
    }
    assert lines[|lines|..] == [];
    l := Finish(st);
  }

  lemma {:induction false} ParseAppend(st: Parsed, a: seq<string>, b: seq<string>)
    ensures ParseLines(st, a + b) == ParseLines(ParseLines(st, a), b)
    decreases |a|
  {
    if a == [] {
      assert a + b == b;
    } else {
      assert (a + b)[1..] == a[1..] + b;
      ParseAppend(ParseLine(st, a[0]), a[1..], b);
    }
  }

  predicate GoodKey(key: string) {
    key != [] && Stripped(key) && ':' !in key && key[0] != '#' && key[0] != ' '
  }

  lemma LStripHashAt(rest: string)
    requires rest != [] && rest[0] != '#' && rest[0] != ' '
    ensures LStripHash("# " + rest) == rest
  {
    var s, t := "# " + rest, " " + rest;
    assert s[1..] == t && t[1..] == rest;
    assert LStripHash(t) == LStripHash(rest) == rest;
  }

  lemma RStripSpace(s: string)
    requires s != [] && !IsSpace(s[|s| - 1])
    ensures RStrip(s + " ") == s
  {
    var t := s + " ";
    assert t[..|t| - 1] == s;
  }

  /** A metadata line sets its key; an empty value is not recorded, and reads back as empty. */
  lemma ParseMetaLine(st: Parsed, key: string, value: string)
    requires GoodKey(key) && Stripped(value)
    ensures ParseLine(st, MetaLine(key, value)) == if value == [] then st else st.(meta := st.meta[key := value])
  {
    var line := MetaLine(key, value);
    var rest := key + [':'] + (if value == [] then [] else " " + value);
    var s := "# " + rest;
    assert LStrip(line) == line;
    if value == [] {
      assert line == s + " ";
      RStripSpace(s);
    } else {
      assert line == s;
    }
    assert Strip(line) == s;
    LStripHashAt(rest);
    CutColonAt(key, if value == [] then [] else " " + value);
    StripSame(key);
    if value != [] {
      assert (" " + value)[1..] == value;
      assert LStrip(" " + value) == LStrip(value);
      StripSame(value);
    }
  }

  lemma ParseComment(st: Parsed, t: string)
    requires t != [] && t[0] != '#' && t[0] != ' ' && ':' !in t && !IsSpace(t[|t| - 1])
    ensures ParseLine(st, "# " + t) == st
  {
    StripSame("# " + t);
    LStripHashAt(t);
    CutColonNone(t);
  }

  predicate Plain(c: char) {
    c != ':' && !IsBreak(c)
  }

  predicate PlainText(s: string) {
    forall i :: 0 <= i < |s| ==> Plain(s[i])
  }

  lemma TitleFront()
    ensures |TITLE| == 58 && TITLE[..29] == "fiboki dependency lockfile --"
  {
  }

  lemma TitleBack()
    ensures |TITLE| == 58 && TITLE[29..] == " GENERATED, do not hand-edit."
  {
  }

  lemma TitlePlain()
    ensures PlainText("fiboki dependency lockfile --")
    ensures PlainText(" GENERATED, do not hand-edit.")
  {
  }

  lemma TitleIsComment()
    ensures |TITLE| == 58 && TITLE[0] == 'f' && TITLE[57] == '.' && ':' !in TITLE && Unbroken(TITLE)
  {
    TitleFront();
    TitleBack();
    TitlePlain();
    var a, b := TITLE[..29], TITLE[29..];
    assert TITLE == a + b && a[0] == 'f' && b[28] == '.';
    assert forall i :: 0 <= i < |TITLE| ==> Plain(TITLE[i]);
  }

  lemma ParseBodyLine(st: Parsed, name: string, version: string)
    requires GoodName(name) && GoodVersion(version)
    ensures ParseLine(st, BodyLine(name, version)) == st.(packages := st.packages[Normalise(name) := version])
  {
    var line := BodyLine(name, version);
    assert line[0] == name[0];
    StripSame(line);
    assert '=' !in name;
    CutEqualsAt(name, version);
  }

  /** Names are normalised and printable, versions printable. */
  ghost predicate WellFormedPackages(p: Packages) {
    forall n :: n in p ==> GoodName(n) && Normalise(n) == n && GoodVersion(p[n])
  }

  function Only(names: seq<string>, p: Packages): Packages {
    map n | n in names && n in p :: p[n]
  }

  lemma OnlyStep(q: Packages, names: seq<string>, p: Packages)
    requires names != [] && names[0] in p
    ensures q[names[0] := p[names[0]]] + Only(names[1..], p) == q + Only(names, p)
  {
    var n := names[0];
    assert names == [n] + names[1..];
    assert n in names;
  }

  lemma {:induction false} ParseBody(st: Parsed, names: seq<string>, p: Packages)
    requires WellFormedPackages(p) && forall n :: n in names ==> n in p
    ensures ParseLines(st, BodyLines(names, p)) == st.(packages := st.packages + Only(names, p))
    decreases |names|
  {
    if names == [] {
      assert st.packages + Only(names, p) == st.packages;
    } else {
      var n := names[0];
      assert n in names;
      ParseBodyLine(st, n, p[n]);
      var st1 := ParseLine(st, BodyLine(n, p[n]));
      assert BodyLines(names, p)[1..] == BodyLines(names[1..], p);
      ParseBody(st1, names[1..], p);
      OnlyStep(st.packages, names, p);
    }
  }

  ghost predicate WellFormed(l: Lock) {
    && WellFormedPackages(l.packages)
    && Stripped(l.python) && Stripped(l.platform) && Stripped(l.recordedAt) && Stripped(l.digest)
    && Unbroken(l.python) && Unbroken(l.platform) && Unbroken(l.recordedAt) && Unbroken(l.digest)
  }

  function SetMeta(st: Parsed, e: Entry): Parsed {
    if e.value == [] then st else st.(meta := st.meta[e.key := e.value])
  }

  function SetAll(st: Parsed, es: seq<Entry>): Parsed
    decreases |es|
  {
    if es == [] then st else SetAll(SetMeta(st, es[0]), es[1..])
  }

  predicate GoodEntry(e: Entry) {
    GoodKey(e.key) && Stripped(e.value) && Unbroken(e.key) && Unbroken(e.value)
  }

  lemma {:induction false} ParseEntries(st: Parsed, es: seq<Entry>)
    requires forall i :: 0 <= i < |es| ==> GoodEntry(es[i])
    ensures ParseLines(st, EntryLines(es)) == SetAll(st, es)
    decreases |es|
  {
    if es != [] {
      ParseMetaLine(st, es[0].key, es[0].value);
      assert EntryLines(es)[1..] == EntryLines(es[1..]);
      ParseEntries(SetMeta(st, es[0]), es[1..]);
    }
  }

  lemma HeaderKeys()
    ensures GoodKey("python") && Unbroken("python") && GoodKey("platform") && Unbroken("platform")
    ensures GoodKey("recorded_at") && Unbroken("recorded_at") && GoodKey("digest") && Unbroken("digest")
  {
  }

  lemma RegenerateHalves()
    ensures var v := REGENERATE.value; |v| == 33 && v[..15] == "python scripts/" && v[15..] == "lockfile.py record"
  {
  }

  lemma RegeneratePlain()
    ensures PlainText("python scripts/") && PlainText("lockfile.py record")
  {
  }

  lemma RegenerateKey()
    ensures GoodKey(REGENERATE.key) && Unbroken(REGENERATE.key)
  {
  }

  lemma RegenerateGood()
    ensures GoodEntry(REGENERATE)
  {
    RegenerateKey();
    RegenerateHalves();
    RegeneratePlain();
    var v := REGENERATE.value;
    var a, b := v[..15], v[15..];
    assert v == a + b && a[0] == 'p' && b[17] == 'd';
    assert forall i :: 0 <= i < |v| ==> Plain(v[i]);
  }

  lemma EntriesGood(l: Lock)
    requires WellFormed(l)
    ensures forall i :: 0 <= i < |Entries(l)| ==> GoodEntry(Entries(l)[i])
  {
    HeaderKeys();
    RegenerateGood();
  }

  lemma ParseHeader(l: Lock)
    requires WellFormed(l)
    ensures ParseLines(START, HeaderLines(l)) == SetAll(START, Entries(l))
  {
    var title, blank := ["# " + TITLE], [""];
    EntriesGood(l);
    ParseEntries(START, Entries(l));
    TitleIsComment();
    ParseComment(START, TITLE);
    assert title[1..] == [];
    assert ParseLines(START, title) == START;
    ParseAppend(START, title + EntryLines(Entries(l)), blank);
    ParseAppend(START, title, EntryLines(Entries(l)));
    var st := SetAll(START, Entries(l));
    assert blank[1..] == [];
    assert ParseLine(st, "") == st;
    assert ParseLines(st, blank) == st;
  }

  /** The metadata read back is the metadata printed. */
  lemma EntriesReadBack(l: Lock)
    ensures var st := SetAll(START, Entries(l));
            && st.packages == map[]
            && Meta(st, "python") == l.python && Meta(st, "platform") == l.platform
            && Meta(st, "recorded_at") == l.recordedAt && Meta(st, "digest") == l.digest
  {
    var es := Entries(l);
    var s1 := SetMeta(START, es[0]);
    var s2 := SetMeta(s1, es[1]);
    var s3 := SetMeta(s2, es[2]);
    var s4 := SetMeta(s3, es[3]);
    var s5 := SetMeta(s4, es[4]);
    assert es[1..][1..] == es[2..] && es[2..][1..] == es[3..] && es[3..][1..] == es[4..] && es[4..][1..] == [];
    assert SetAll(s4, es[4..]) == s5;
    assert SetAll(s3, es[3..]) == s5;
    assert SetAll(s2, es[2..]) == s5;
    assert SetAll(s1, es[1..]) == s5;
    assert |REGENERATE.key| == 15 && |"python"| == 6 && |"platform"| == 8 && |"recorded_at"| == 11 && |"digest"| == 6;
    assert "python"[0] != "digest"[0];
  }

  lemma HeaderUnbroken(l: Lock)
    requires WellFormed(l)
    ensures forall i :: 0 <= i < |HeaderLines(l)| ==> Unbroken(HeaderLines(l)[i])
  {
    TitleIsComment();
    EntriesGood(l);
    forall i | 0 <= i < |Entries(l)| ensures Unbroken(EntryLines(Entries(l))[i]) {
      assert GoodEntry(Entries(l)[i]);
    }
  }

  lemma BodyUnbroken(names: seq<string>, p: Packages)
    requires WellFormedPackages(p) && forall n :: n in names ==> n in p
    ensures forall i :: 0 <= i < |names| ==> Unbroken(BodyLines(names, p)[i])
  {
    forall i | 0 <= i < |names| ensures Unbroken(BodyLines(names, p)[i]) {
      assert names[i] in names;
      BreaksAreSpaces(names[i]);
    }
  }

  lemma BreaksAreSpaces(n: string)
    requires GoodName(n)
    ensures Unbroken(n)
  {
  }

  lemma LinesOfText(l: Lock, digest: Packages -> string)
    requires WellFormed(Filled(l, digest))
    ensures forall n :: n in Names(l.packages) <==> n in l.packages
    ensures PyLines(ToText(l, digest)) == HeaderLines(Filled(l, digest)) + BodyLines(Names(l.packages), l.packages)
  {
    NamesExactly(l.packages);
    HeaderUnbroken(Filled(l, digest));
    BodyUnbroken(Names(l.packages), l.packages);
    PyLinesOfText(HeaderLines(Filled(l, digest)) + BodyLines(Names(l.packages), l.packages));
  }

  /** After a header that leaves the metadata of f and no package, the body completes f. */
  lemma BodyCompletes(f: Lock, header: seq<string>, names: seq<string>, st: Parsed)
    requires WellFormedPackages(f.packages) && forall n :: n in names <==> n in f.packages
    requires ParseLines(START, header) == st && st.packages == map[]
    requires Meta(st, "python") == f.python && Meta(st, "platform") == f.platform
    requires Meta(st, "recorded_at") == f.recordedAt && Meta(st, "digest") == f.digest
    ensures Finish(ParseLines(START, header + BodyLines(names, f.packages))) == f
  {
    var p := f.packages;
    ParseAppend(START, header, BodyLines(names, p));
    ParseBody(st, names, p);
    assert st.packages + Only(names, p) == p;
  }

  lemma ParseWhole(f: Lock, names: seq<string>)
    requires WellFormed(f) && forall n :: n in names <==> n in f.packages
    ensures Finish(ParseLines(START, HeaderLines(f) + BodyLines(names, f.packages))) == f
  {
    ParseHeader(f);
    EntriesReadBack(f);
    BodyCompletes(f, HeaderLines(f), names, SetAll(START, Entries(f)));
  }

  /** Parsing undoes printing on every well-formed lockfile, metadata included, an empty
      digest being filled in. */
  lemma ParseUndoesToText(l: Lock, digest: Packages -> string)
    requires WellFormed(Filled(l, digest))
    ensures var read := Finish(ParseLines(START, PyLines(ToText(l, digest))));
            && read == Filled(l, digest)
            && read.packages == l.packages
            && read.python == l.python && read.platform == l.platform && read.recordedAt == l.recordedAt
            && (l.digest != [] ==> read.digest == l.digest)
            && (l.digest == [] ==> read.digest == digest(l.packages))
  {
    LinesOfText(l, digest);
    ParseWhole(Filled(l, digest), Names(l.packages));
  }

  // ---------------------------------------------------------------- the environment

  /** An installed distribution as its metadata gives it. */
  datatype Distribution = Distribution(name: Option<string>, version: Option<string>)

  const IGNORED: set<string> := {"pip", "setuptools", "wheel", "pkg-resources", "distribute"}
  const NUMERICAL: set<string> := {"numpy", "pandas", "scipy", "pyarrow"}

  /** `installed_distributions`. */
  function Installed(ds: seq<Distribution>): Packages {
    if ds == [] then map[]
    else
      var d, found := ds[|ds| - 1], Installed(ds[..|ds| - 1]);
      if d.name.None? || d.name.value == [] || Normalise(d.name.value) in IGNORED then found
      else found[Normalise(d.name.value) := if d.version.None? || d.version.value == [] then "0" else d.version.value]
  }

  /** The distribution is package n, and n is not one of the packages left unlocked. */
  ghost predicate IsPackage(d: Distribution, n: string) {
    && d.name.Some? && d.name.value != [] && Normalise(d.name.value) == n
    && n != "pip" && n != "setuptools" && n != "wheel" && n != "pkg-resources" && n != "distribute"
  }

  /** The last distribution that is package n has version v, an absent or empty one being
      "0". */
  ghost predicate Has(ds: seq<Distribution>, n: string, v: string) {
    exists i :: 0 <= i < |ds| && LastPackage(ds, n, i)
                && v == if ds[i].version.None? || ds[i].version.value == [] then "0" else ds[i].version.value
  }

  ghost predicate LastPackage(ds: seq<Distribution>, n: string, i: int)
    requires 0 <= i < |ds|
  {
    IsPackage(ds[i], n) && forall j :: i < j < |ds| ==> !IsPackage(ds[j], n)
  }

  lemma HasSnoc(ds: seq<Distribution>, d: Distribution, n: string, v: string)
    ensures Has(ds + [d], n, v) <==>
      if IsPackage(d, n) then v == (if d.version.None? || d.version.value == [] then "0" else d.version.value)
      else Has(ds, n, v)
  {
    var all := ds + [d];
    if IsPackage(d, n) {
      assert LastPackage(all, n, |ds|);
      assert IsPackage(all[|ds|], n);
      assert forall i :: 0 <= i < |ds| ==> !LastPackage(all, n, i);
    } else {
      forall i | 0 <= i < |ds| ensures LastPackage(all, n, i) <==> LastPackage(ds, n, i) {
        assert all[|ds|] == d;
        assert forall j :: 0 <= j < |ds| ==> all[j] == ds[j];
      }
      if Has(ds, n, v) {
        var i :| 0 <= i < |ds| && LastPackage(ds, n, i)
                 && v == if ds[i].version.None? || ds[i].version.value == [] then "0" else ds[i].version.value;
        assert LastPackage(all, n, i);
      }
    }
  }

  /** What is found installed: each package that some distribution names, unless it is one of
      those left unlocked, at the version of the last distribution that does. */
  lemma {:induction false} InstalledExactly(ds: seq<Distribution>)
    ensures forall n, v :: n in Installed(ds) && Installed(ds)[n] == v <==> Has(ds, n, v)
    ensures forall n :: n in Installed(ds) <==> exists i :: 0 <= i < |ds| && IsPackage(ds[i], n)
  {
    if ds != [] {
      var k := |ds| - 1;
      var d := ds[k];
      assert ds == ds[..k] + [d];
      InstalledExactly(ds[..k]);
      forall n, v ensures n in Installed(ds) && Installed(ds)[n] == v <==> Has(ds, n, v) {
        HasSnoc(ds[..k], d, n, v);
      }
      forall n ensures n in Installed(ds) <==> exists i :: 0 <= i < |ds| && IsPackage(ds[i], n) {
        if n in Installed(ds[..k]) {
          var i :| 0 <= i < k && IsPackage(ds[..k][i], n);
          assert IsPackage(ds[i], n);
        }
        if exists i :: 0 <= i < |ds| && IsPackage(ds[i], n) {
          var i :| 0 <= i < |ds| && IsPackage(ds[i], n);
          assert i < k ==> IsPackage(ds[..k][i], n);
        }
      }
    }
  }

  ghost predicate Printable(ds: seq<Distribution>) {
    forall i :: 0 <= i < |ds| ==>
      && (ds[i].name.Some? && ds[i].name.value != [] ==> GoodName(ds[i].name.value))
      && (ds[i].version.Some? ==> GoodVersion(ds[i].version.value))
  }

  lemma {:induction false} InstalledWellFormed(ds: seq<Distribution>)
    requires Printable(ds)
    ensures WellFormedPackages(Installed(ds))
  {
    if ds != [] {
      var n := |ds| - 1;
      InstalledWellFormed(ds[..n]);
      var d := ds[n];
      if d.name.Some? && d.name.value != [] {
        NormaliseGood(d.name.value);
        NormaliseIdempotent(d.name.value);
      }
    }
  }

  datatype Verification = Verification(
    ok: bool, missing: Packages, extra: Packages, changed: map<string, (string, string)>,
    lockfileMissing: bool, numericalDrift: map<string, (string, string)>)

  /** `verify` against the parsed packages. */
  function Compare(lock: Packages, current: Packages, strictExtras: bool): Verification {
    var missing := map n | n in lock && n !in current :: lock[n];
    var extra := map n | n in current && n !in lock :: current[n];
    var changed := map n | n in lock && n in current && current[n] != lock[n] :: (lock[n], current[n]);
    var numerical := map n | n in changed && n in NUMERICAL :: changed[n];
    var gone := map n | n in missing && n in NUMERICAL :: (lock[n], "<missing>");
    Verification(
      changed == map[] && missing == map[] && (extra == map[] || !strictExtras),
      missing, extra, changed, false, numerical + gone)
  }

  /** `verify`: without a lockfile there is nothing to compare with, and it is not ok. */
  function Verify(file: Option<string>, current: Packages, strictExtras: bool): (v: Verification)
    ensures v.ok ==> file.Some? && v.missing.Keys + v.changed.Keys == {}
    ensures v.lockfileMissing <==> file.None?
  {
    if file.None? then Verification(false, map[], map[], map[], true, map[])
    else Compare(Finish(ParseLines(START, PyLines(file.value))).packages, current, strictExtras)
  }

  /** Missing, extra, changed and equal names partition the union of the two environments. */
  lemma ComparePartitions(lock: Packages, current: Packages, strictExtras: bool)
    ensures var v := Compare(lock, current, strictExtras);
            var equal := set n | n in lock && n in current && lock[n] == current[n];
            && v.missing.Keys + v.extra.Keys + v.changed.Keys + equal == lock.Keys + current.Keys
            && v.missing.Keys * v.extra.Keys == {} && v.missing.Keys * v.changed.Keys == {}
            && v.extra.Keys * v.changed.Keys == {} && equal * (v.missing.Keys + v.extra.Keys + v.changed.Keys) == {}
  {
    var v := Compare(lock, current, strictExtras);
    assert v.missing.Keys == lock.Keys - current.Keys && v.extra.Keys == current.Keys - lock.Keys;
    assert v.changed.Keys == set n | n in lock && n in current && current[n] != lock[n];
  }

  /** The comparison is ok exactly when nothing is missing or changed (and, if extras are
      strict, nothing is extra); a numerical package drifts when it is missing or changed. */
  lemma CompareOkIff(lock: Packages, current: Packages, strictExtras: bool)
    ensures var v := Compare(lock, current, strictExtras);
            && (v.ok <==> (forall n :: n in lock ==> n in current && current[n] == lock[n])
                          && (strictExtras ==> current.Keys <= lock.Keys))
            && v.numericalDrift.Keys == (v.changed.Keys + v.missing.Keys) * NUMERICAL
  {
    var v := Compare(lock, current, strictExtras);
    NoKeys(v.missing);
    NoKeys(v.extra);
    NoKeys(v.changed);
    assert v.missing.Keys == lock.Keys - current.Keys && v.extra.Keys == current.Keys - lock.Keys;
    assert v.changed.Keys == set n | n in lock && n in current && current[n] != lock[n];
  }

  /** What each part of the comparison says of a package: missing and extra ones at the version
      they have, changed ones as (locked, installed), and the numerical ones among them. */
  lemma CompareValues(lock: Packages, current: Packages, strictExtras: bool, n: string)
    ensures var v := Compare(lock, current, strictExtras);
            && !v.lockfileMissing
            && (n in v.missing <==> n in lock && n !in current)
            && (n in v.missing ==> v.missing[n] == lock[n])
            && (n in v.extra <==> n in current && n !in lock)
            && (n in v.extra ==> v.extra[n] == current[n])
            && (n in v.changed <==> n in lock && n in current && lock[n] != current[n])
            && (n in v.changed ==> v.changed[n].0 == lock[n] && v.changed[n].1 == current[n])
            && (n in v.numericalDrift <==>
                  && (n == "numpy" || n == "pandas" || n == "scipy" || n == "pyarrow")
                  && n in lock && (n in current ==> lock[n] != current[n]))
            && (n in v.numericalDrift ==>
                  && v.numericalDrift[n].0 == lock[n]
                  && v.numericalDrift[n].1 == if n in current then current[n] else "<missing>")
  {
    var v := Compare(lock, current, strictExtras);
    if n in v.numericalDrift {
      assert n in v.changed || n in v.missing;
    }
  }

  lemma NoKeys<T>(m: map<string, T>)
    ensures m == map[] <==> m.Keys == {}
  {
  }

  /** Recording an environment and verifying it unchanged is ok, strict or not, whatever
      distributions it holds. */
  lemma RecordThenVerifyOk(
    ds: seq<Distribution>, python: string, platform: string, recordedAt: string, digest: Packages -> string,
    strictExtras: bool)
    requires Printable(ds)
    requires WellFormed(Lock(map[], python, platform, recordedAt, digest(Installed(ds))))
    ensures var lock := Lock(Installed(ds), python, platform, recordedAt, digest(Installed(ds)));
            && Finish(ParseLines(START, PyLines(ToText(lock, digest)))) == Filled(lock, digest)
            && Verify(Some(ToText(lock, digest)), Installed(ds), strictExtras)
               == Verification(true, map[], map[], map[], false, map[])
  {
    InstalledWellFormed(ds);
    ParseUndoesToText(Lock(Installed(ds), python, platform, recordedAt, digest(Installed(ds))), digest);
  }

  /** Recording one environment and verifying another is ok exactly when every package of the
      first is in the second at the same version, and, if extras are strict, the converse. */
  lemma RecordThenVerifyIff(
    ds1: seq<Distribution>, ds2: seq<Distribution>, python: string, platform: string, recordedAt: string,
    digest: Packages -> string, strictExtras: bool)
    requires Printable(ds1)
    requires WellFormed(Lock(map[], python, platform, recordedAt, digest(Installed(ds1))))
    ensures var lock := Lock(Installed(ds1), python, platform, recordedAt, digest(Installed(ds1)));
            Verify(Some(ToText(lock, digest)), Installed(ds2), strictExtras).ok <==>
              && (forall n, v :: Has(ds1, n, v) ==> Has(ds2, n, v))
              && (strictExtras ==> forall n, v :: Has(ds2, n, v) ==> Has(ds1, n, v))
  {
    var lock := Lock(Installed(ds1), python, platform, recordedAt, digest(Installed(ds1)));
    InstalledWellFormed(ds1);
    ParseUndoesToText(lock, digest);
    InstalledExactly(ds1);
    InstalledExactly(ds2);
    CompareOkIff(Installed(ds1), Installed(ds2), strictExtras);
    var one, two := Installed(ds1), Installed(ds2);
    SameEntries(one, two, ds1, ds2);
    SameEntries(two, one, ds2, ds1);
    if Compare(one, two, strictExtras).ok && strictExtras {
      forall n | n in two ensures n in one && one[n] == two[n] {
        assert n in one.Keys;
      }
    }
  }

  lemma SameEntries(one: Packages, two: Packages, ds1: seq<Distribution>, ds2: seq<Distribution>)
    requires forall n, v :: n in one && one[n] == v <==> Has(ds1, n, v)
    requires forall n, v :: n in two && two[n] == v <==> Has(ds2, n, v)
    ensures (forall n :: n in one ==> n in two && two[n] == one[n]) <==>
            (forall n, v :: Has(ds1, n, v) ==> Has(ds2, n, v))
  {
    if forall n, v :: Has(ds1, n, v) ==> Has(ds2, n, v) {
      forall n | n in one ensures n in two && two[n] == one[n] {
        assert Has(ds1, n, one[n]);
      }
    }
  }
}
