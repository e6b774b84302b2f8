/** `generate` of `research/generate_families_k6.py`: a greedy walk over a fixed visiting order
    that keeps a cell unless it is excluded, repeats a prior document's rules, or collides
    with a cell already kept in any of three hashes. */
module Generate {
  import opened Sequences
  import opened Grammar
  import opened CellText

  /** A hash of the document built for a cell under a given number. */
  type Hash = (nat, Cell) -> string

  datatype Policy = Policy(excluded: Cell -> bool, structure: Hash, rules: Hash, body: Hash, prior: set<string>)

  /** The hashes of the cells kept so far, each under its own number. */
  ghost function Seen(h: Hash, kept: seq<Cell>): set<string> {
    set j: nat | 0 <= j < |kept| :: h(j, kept[j])
  }

  /** The next cell collides with nothing: prior rules, or a kept cell in any hash. */
  ghost predicate Admits(p: Policy, kept: seq<Cell>, c: Cell) {
    && p.rules(|kept|, c) !in p.prior
    && p.structure(|kept|, c) !in Seen(p.structure, kept)
    && p.rules(|kept|, c) !in Seen(p.rules, kept)
    && p.body(|kept|, c) !in Seen(p.body, kept)
  }

  /** What the walk keeps of a list of cells when nothing bounds its length. */
  ghost function Full(p: Policy, cells: seq<Cell>): seq<Cell> {
    if cells == [] then []
    else
      var n := |cells| - 1;
      var kept := Full(p, cells[..n]);
      if !p.excluded(cells[n]) && Admits(p, kept, cells[n]) then kept + [cells[n]] else kept
  }

  /** How many of the cells the grammar does not exclude. */
  function Valid(p: Policy, cells: seq<Cell>): nat {
    if cells == [] then 0 else Valid(p, cells[..|cells| - 1]) + (if p.excluded(cells[|cells| - 1]) then 0 else 1)
  }

  lemma {:induction false} FullMonotone(p: Policy, cells: seq<Cell>, m: nat)
    requires m <= |cells|
    ensures Full(p, cells[..m]) <= Full(p, cells) && Valid(p, cells[..m]) <= Valid(p, cells)
  {
    var n := |cells| - 1;
    if m == |cells| {
      assert cells[..m] == cells;
    } else {
      FullMonotone(p, cells[..n], m);
      assert cells[..n][..m] == cells[..m];
    }
  }

  /** No two kept cells agree in any of the three hashes, and none has a prior rule. */
  ghost predicate Deduplicated(p: Policy, kept: seq<Cell>) {
    && (forall i: nat :: i < |kept| ==> !p.excluded(kept[i]) && p.rules(i, kept[i]) !in p.prior)
    && (forall i: nat, j: nat :: i < j < |kept| ==>
          && p.structure(i, kept[i]) != p.structure(j, kept[j])
          && p.rules(i, kept[i]) != p.rules(j, kept[j])
          && p.body(i, kept[i]) != p.body(j, kept[j]))
  }

  lemma AdmitKeepsDeduplicated(p: Policy, kept: seq<Cell>, c: Cell)
    requires Deduplicated(p, kept) && !p.excluded(c) && Admits(p, kept, c)
    ensures Deduplicated(p, kept + [c])
  {
    var more := kept + [c];
    forall i: nat, j: nat | i < j < |more|
      ensures p.structure(i, more[i]) != p.structure(j, more[j])
      ensures p.rules(i, more[i]) != p.rules(j, more[j])
      ensures p.body(i, more[i]) != p.body(j, more[j])
    {
      assert more[i] == kept[i];
      if j == |kept| {
      } else {
        assert more[j] == kept[j];
      }
    }
    forall i: nat | i < |more| ensures !p.excluded(more[i]) && p.rules(i, more[i]) !in p.prior {
      assert i < |kept| ==> more[i] == kept[i];
    }
  }

  lemma {:induction false} FullDeduplicated(p: Policy, cells: seq<Cell>)
    ensures Deduplicated(p, Full(p, cells))
  {
    if cells != [] {
      var n := |cells| - 1;
      FullDeduplicated(p, cells[..n]);
      if !p.excluded(cells[n]) && Admits(p, Full(p, cells[..n]), cells[n]) {
        AdmitKeepsDeduplicated(p, Full(p, cells[..n]), cells[n]);
      }
    }
  }

  /** Why a cell that was visited and not kept was not: at its turn it repeated a prior rule
      or a hash of a cell kept before it. */
  ghost predicate Collides(p: Policy, kept: seq<Cell>, c: Cell) {
    || p.rules(|kept|, c) in p.prior
    || exists j: nat :: j < |kept| &&
         (|| p.structure(|kept|, c) == p.structure(j, kept[j])
          || p.rules(|kept|, c) == p.rules(j, kept[j])
          || p.body(|kept|, c) == p.body(j, kept[j]))
  }

  /** Every valid cell is kept at its turn or collides then: nothing is dropped for nothing. */
  lemma KeptOrCollides(p: Policy, cells: seq<Cell>, m: nat)
    requires m < |cells| && !p.excluded(cells[m])
    ensures var before := Full(p, cells[..m]);
            if Collides(p, before, cells[m]) then Full(p, cells[..m + 1]) == before
            else Full(p, cells[..m + 1]) == before + [cells[m]]
    ensures Full(p, cells[..m + 1]) <= Full(p, cells)
  {
    assert cells[..m + 1][..m] == cells[..m];
    FullMonotone(p, cells, m + 1);
    var before, c := Full(p, cells[..m]), cells[m];
    if Collides(p, before, c) && p.rules(|before|, c) !in p.prior {
      var j: nat :| j < |before| &&
        (|| p.structure(|before|, c) == p.structure(j, before[j])
         || p.rules(|before|, c) == p.rules(j, before[j])
         || p.body(|before|, c) == p.body(j, before[j]));
      assert p.structure(j, before[j]) in Seen(p.structure, before);
      assert p.rules(j, before[j]) in Seen(p.rules, before);
      assert p.body(j, before[j]) in Seen(p.body, before);
    }
  }

  // ---------------------------------------------------------------- the loop

  datatype Dropped = Dropped(prior: nat, structure: nat, rules: nat, body: nat)

  function Count(d: Dropped): nat {
    d.prior + d.structure + d.rules + d.body
  }

  /** A cell that is not admitted counts under the first reason that applies. */
  ghost function Drop(p: Policy, kept: seq<Cell>, c: Cell, d: Dropped): Dropped {
    if p.rules(|kept|, c) in p.prior then d.(prior := d.prior + 1)
    else if p.structure(|kept|, c) in Seen(p.structure, kept) then d.(structure := d.structure + 1)
    else if p.rules(|kept|, c) in Seen(p.rules, kept) then d.(rules := d.rules + 1)
    else if p.body(|kept|, c) in Seen(p.body, kept) then d.(body := d.body + 1)
    else d
  }

  /** What the unbounded walk counts as dropped. */
  ghost function Drops(p: Policy, cells: seq<Cell>): Dropped {
    if cells == [] then Dropped(0, 0, 0, 0)
    else
      var n := |cells| - 1;
      var d := Drops(p, cells[..n]);
      if p.excluded(cells[n]) then d else Drop(p, Full(p, cells[..n]), cells[n], d)
  }

  lemma DropCounts(p: Policy, kept: seq<Cell>, c: Cell, d: Dropped)
    ensures Count(Drop(p, kept, c, d)) == Count(d) + (if Admits(p, kept, c) then 0 else 1)
  {
  }

  /** Conservation: every valid cell is kept or counted once as dropped. */
  lemma {:induction false} KeptPlusDropped(p: Policy, cells: seq<Cell>)
    ensures Valid(p, cells) == |Full(p, cells)| + Count(Drops(p, cells))
  {
    if cells != [] {
      var n := |cells| - 1;
      KeptPlusDropped(p, cells[..n]);
      DropCounts(p, Full(p, cells[..n]), cells[n], Drops(p, cells[..n]));
    }
  }

  datatype Generated = Generated(kept: seq<Kept>, visited: nat, dropped: Dropped)

  function Cells(kept: seq<Kept>): (cs: seq<Cell>)
    ensures |cs| == |kept|
  {
    seq(|kept|, i requires 0 <= i < |kept| => kept[i].cell)
  }

  predicate Numbered(kept: seq<Kept>) {
    forall i :: 0 <= i < |kept| ==> kept[i].index == i
  }

  lemma SeenGrows(h: Hash, kept: seq<Cell>, c: Cell)
    ensures Seen(h, kept + [c]) == Seen(h, kept) + {h(|kept|, c)}
  {
    var more := kept + [c];
    forall x | x in Seen(h, kept) ensures x in Seen(h, more) {
      var j: nat :| j < |kept| && h(j, kept[j]) == x;
      assert h(j, more[j]) == x;
    }
    assert h(|kept|, more[|kept|]) in Seen(h, more);
  }

  /** The three "seen" maps of the loop. */
  datatype Maps = Maps(structure: map<string, nat>, rules: map<string, nat>, body: map<string, nat>)

  ghost predicate Records(m: Maps, p: Policy, kept: seq<Cell>) {
    && m.structure.Keys == Seen(p.structure, kept)
    && m.rules.Keys == Seen(p.rules, kept)
    && m.body.Keys == Seen(p.body, kept)
  }

  function Record(m: Maps, p: Policy, i: nat, c: Cell): Maps {
    Maps(m.structure[p.structure(i, c) := i], m.rules[p.rules(i, c) := i], m.body[p.body(i, c) := i])
  }

  lemma RecordsGrow(m: Maps, p: Policy, kept: seq<Cell>, c: Cell)
    requires Records(m, p, kept)
    ensures Records(Record(m, p, |kept|, c), p, kept + [c])
  {
    SeenGrows(p.structure, kept, c);
    SeenGrows(p.rules, kept, c);
    SeenGrows(p.body, kept, c);
  }

  /** One visited cell: kept under the next number, or counted under the first reason to
      drop it. */
  method VisitCell(p: Policy, c: Cell, g: Generated, m: Maps) returns (g': Generated, m': Maps)
    requires Numbered(g.kept) && Records(m, p, Cells(g.kept))
    ensures Numbered(g'.kept) && Records(m', p, Cells(g'.kept))
    ensures g'.visited == g.visited + 1 && g'.dropped == Drop(p, Cells(g.kept), c, g.dropped)
    ensures Cells(g'.kept) == if Admits(p, Cells(g.kept), c) then Cells(g.kept) + [c] else Cells(g.kept)
  {
    var i, d := |g.kept|, g.dropped;
    m' := m;
    if p.rules(i, c) in p.prior {
      g' := Generated(g.kept, g.visited + 1, d.(prior := d.prior + 1));
    } else if p.structure(i, c) in m.structure {
      g' := Generated(g.kept, g.visited + 1, d.(structure := d.structure + 1));
    } else if p.rules(i, c) in m.rules {
      g' := Generated(g.kept, g.visited + 1, d.(rules := d.rules + 1));
    } else if p.body(i, c) in m.body {
      g' := Generated(g.kept, g.visited + 1, d.(body := d.body + 1));
    } else {
      m' := Record(m, p, i, c);
      RecordsGrow(m, p, Cells(g.kept), c);
      g' := Generated(g.kept + [Kept(i, c)], g.visited + 1, d);
      assert Cells(g'.kept) == Cells(g.kept) + [c];
    }
  }

  lemma FullStep(p: Policy, cells: seq<Cell>, k: nat)
    requires k < |cells|
    ensures Full(p, cells[..k + 1]) ==
            if !p.excluded(cells[k]) && Admits(p, Full(p, cells[..k]), cells[k])
            then Full(p, cells[..k]) + [cells[k]] else Full(p, cells[..k])
    ensures Valid(p, cells[..k + 1]) == Valid(p, cells[..k]) + (if p.excluded(cells[k]) then 0 else 1)
    ensures Drops(p, cells[..k + 1]) ==
            if p.excluded(cells[k]) then Drops(p, cells[..k])
            else Drop(p, Full(p, cells[..k]), cells[k], Drops(p, cells[..k]))
  {
    assert cells[..k + 1][..k] == cells[..k];
  }

  /** The result of walking the first k cells: kept, visited and dropped are all theirs. */
  ghost predicate Took(p: Policy, cells: seq<Cell>, k: nat, g: Generated)
    requires k <= |cells|
  {
    && Cells(g.kept) == Full(p, cells[..k])
    && g.visited == Valid(p, cells[..k]) && g.dropped == Drops(p, cells[..k])
  }

  /** What the walk maintains after k cells of its order. */
  ghost predicate Walked(p: Policy, cells: seq<Cell>, k: nat, g: Generated, seen: Maps)
    requires k <= |cells|
  {
    && Numbered(g.kept) && Records(seen, p, Cells(g.kept))
    && Took(p, cells, k, g)
  }

  /** One turn of the walk. */
  method Turn(p: Policy, ghost cells: seq<Cell>, ghost k: nat, cell: Cell, g: Generated, seen: Maps)
    returns (g': Generated, seen': Maps)
    requires k < |cells| && cell == cells[k] && Walked(p, cells, k, g, seen)
    ensures Walked(p, cells, k + 1, g', seen') && |g.kept| <= |g'.kept| <= |g.kept| + 1
  {
    FullStep(p, cells, k);
    g', seen' := g, seen;
    if !p.excluded(cell) {
      g', seen' := VisitCell(p, cell, g, seen);
    }
  }

  /** A size of at least one has not been reached before cell k. */
  ghost predicate Short(p: Policy, cells: seq<Cell>, k: nat, size: int)
    requires k <= |cells|
  {
    size >= 1 ==> forall i: nat :: i < k ==> |Full(p, cells[..i])| < size
  }

  /** The walk until `size` cells are kept or the order ends; m is how far it went. */
  method Walk(p: Policy, axes: Axes, order: seq<int>, size: int) returns (g: Generated, ghost m: nat)
    requires Positive(Radices(axes))
    ensures m <= |order| && Numbered(g.kept) && Took(p, Visit(axes, order), m, g)
    ensures Short(p, Visit(axes, order), m, size)
    ensures m < |order| ==> |g.kept| == size >= 1
    ensures size >= 1 ==> |g.kept| <= size
  {
    ghost var cells := Visit(axes, order);
    g := Generated([], 0, Dropped(0, 0, 0, 0));
    var seen := Maps(map[], map[], map[]);
    m := 0;
    assert cells[..0] == [];
    for k := 0 to |order|
      invariant m == k && Walked(p, cells, k, g, seen) && Short(p, cells, k, size)
      invariant size >= 1 ==> |g.kept| < size
    {
      var cell := CellAt(axes, order[k]);
      var before := |g.kept|;
      g, seen := Turn(p, cells, k, cell, g, seen);
      m := k + 1;
      if before < |g.kept| == size {
        return;
      }
    }
  }

  /** What a successful run answers: the walk up to the cell that completes `size`, or all of
      it when `size` is zero or less, its cells numbered from zero. */
  ghost predicate Answers(p: Policy, cells: seq<Cell>, size: int, g: Generated) {
    && Numbered(g.kept)
    && |g.kept| == (if size >= 1 then size else |Full(p, cells)|)
    && exists m: nat :: m <= |cells| && Took(p, cells, m, g) && Short(p, cells, m, size) && (size < 1 ==> m == |cells|)
  }

  /** Refused exactly when the grammar holds too few distinct documents, and otherwise the
      answer described above, every visited cell either kept or counted as dropped. For a
      size of zero or less the stop test never fires and the whole walk is kept. */
  method Generate(p: Policy, axes: Axes, order: seq<int>, size: int) returns (r: Result<Generated>)
    requires Positive(Radices(axes))
    ensures r.Ok? <==> size <= |Full(p, Visit(axes, order))|
    ensures r.Ok? ==>
      && Answers(p, Visit(axes, order), size, r.value)
      && r.value.visited == |r.value.kept| + Count(r.value.dropped)
      && r.value.visited <= Valid(p, Visit(axes, order))
  {
    ghost var cells := Visit(axes, order);
    var g, m := Walk(p, axes, order, size);
    FullMonotone(p, cells, m);
    KeptPlusDropped(p, cells[..m]);
    assert cells[..|order|] == cells;
    if |g.kept| < size {
      return Err("grammar yields fewer distinct documents");
    }
    r := Ok(g);
  }

  /** The kept cells are the first of the unbounded walk's. */
  lemma AnswerIsPrefix(p: Policy, cells: seq<Cell>, size: int, g: Generated)
    requires Answers(p, cells, size, g)
    ensures |g.kept| <= |Full(p, cells)| && Cells(g.kept) == Full(p, cells)[..|g.kept|]
    ensures Deduplicated(p, Cells(g.kept))
  {
    var m: nat :| m <= |cells| && Took(p, cells, m, g) && Short(p, cells, m, size) && (size < 1 ==> m == |cells|);
    FullMonotone(p, cells, m);
    FullDeduplicated(p, cells[..m]);
  }

  /** A smaller size yields a prefix of what a larger one yields, numbers included. */
  lemma SmallerIsPrefix(p: Policy, cells: seq<Cell>, small: int, g: Generated, large: int, h: Generated)
    requires 1 <= small <= large && Answers(p, cells, small, g) && Answers(p, cells, large, h)
    ensures g.kept <= h.kept
  {
    AnswerIsPrefix(p, cells, small, g);
    AnswerIsPrefix(p, cells, large, h);
    forall i | 0 <= i < |g.kept| ensures g.kept[i] == h.kept[i] {
      assert Cells(g.kept)[i] == Full(p, cells)[i] == Cells(h.kept)[i];
    }
  }

  /** With a size of zero or less the whole walk is kept. */
  lemma SizeZeroKeepsAll(p: Policy, cells: seq<Cell>, size: int, g: Generated)
    requires size <= 0 && Answers(p, cells, size, g)
    ensures Cells(g.kept) == Full(p, cells)
  {
    AnswerIsPrefix(p, cells, size, g);
  }

  /** So asking for no document of a walk that admits one yields that one. */
  lemma SizeZeroKeepsOne(p: Policy, c: Cell, g: Generated)
    requires !p.excluded(c) && p.rules(0, c) !in p.prior && Answers(p, [c], 0, g)
    ensures g.kept == [Kept(0, c)]
  {
    SizeZeroKeepsAll(p, [c], 0, g);
    assert [c][..0] == [];
    assert Full(p, [c]) == [c];
    assert Cells(g.kept)[0] == g.kept[0].cell;
  }

  // ---------------------------------------------------------------- visited and valid

  /** The counting loop before the walk: valid cells in flat order. */
  method CountValid(p: Policy, axes: Axes) returns (valid: nat)
    requires Positive(Radices(axes))
    ensures valid == Valid(p, Visit(axes, Iota(Size(Radices(axes)))))
  {
    var total := Size(Radices(axes));
    ghost var cells := Visit(axes, Iota(total));
    valid := 0;
    for flat := 0 to total
      invariant valid == Valid(p, cells[..flat])
    {
      assert cells[..flat + 1][..flat] == cells[..flat];
      var cell := CellAt(axes, flat);
      if !p.excluded(cell) {
        valid := valid + 1;
      }
    }
    assert cells[..total] == cells;
  }

  function Iota(n: nat): (s: seq<int>)
    ensures |s| == n && forall i :: 0 <= i < n ==> s[i] == i
  {
    seq(n, i => i)
  }

  function Keep(p: Policy, cells: seq<Cell>): seq<Cell> {
    if cells == [] then []
    else Keep(p, cells[..|cells| - 1]) + (if p.excluded(cells[|cells| - 1]) then [] else [cells[|cells| - 1]])
  }

  lemma {:induction false} ValidIsKeep(p: Policy, cells: seq<Cell>)
    ensures |Keep(p, cells)| == Valid(p, cells)
    ensures forall c :: c in Keep(p, cells) <==> c in cells && !p.excluded(c)
  {
    if cells != [] {
      var n := |cells| - 1;
      ValidIsKeep(p, cells[..n]);
      assert cells == cells[..n] + [cells[n]];
    }
  }

  lemma {:induction false} KeepNoRepeats(p: Policy, cells: seq<Cell>)
    requires NoRepeats(cells)
    ensures NoRepeats(Keep(p, cells))
  {
    if cells != [] {
      var n := |cells| - 1;
      var front := Keep(p, cells[..n]);
      KeepNoRepeats(p, cells[..n]);
      ValidIsKeep(p, cells[..n]);
      assert cells[n] !in cells[..n];
    }
  }

  /** The number of valid cells does not depend on the order they are visited in, so what
      the walk visits never exceeds what the counting loop counted. */
  lemma ValidOfAnyOrder(p: Policy, axes: Axes, order: seq<int>)
    requires WellFormed(axes) && Positive(Radices(axes)) && VisitingOrder(order, Size(Radices(axes)))
    ensures Valid(p, Visit(axes, order)) == Valid(p, Visit(axes, Iota(Size(Radices(axes)))))
  {
    var n := Size(Radices(axes));
    var a, b := Visit(axes, order), Visit(axes, Iota(n));
    forall f ensures f in Iota(n) <==> 0 <= f < n {
      if 0 <= f < n {
        assert Iota(n)[f] == f;
      }
    }
    VisitMeetsEachOnce(axes, order);
    VisitMeetsEachOnce(axes, Iota(n));
    ValidIsKeep(p, a);
    ValidIsKeep(p, b);
    KeepNoRepeats(p, a);
    KeepNoRepeats(p, b);
    SameElements(Keep(p, a), Keep(p, b));
    assert |multiset(Keep(p, a))| == |multiset(Keep(p, b))|;
  }
}
