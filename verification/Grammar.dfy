/** The cell grammar of `research/generate_families_k6.py`: mixed-radix enumeration of axis
    choices, for every list of non-empty axes. */
module Grammar {
  import opened Sequences
  import opened Arithmetic

  /** The names on each axis, in order. */
  type Axes = seq<seq<string>>

  type Cell = seq<string>

  ghost predicate WellFormed(axes: Axes) {
    forall i :: 0 <= i < |axes| ==> axes[i] != [] && NoRepeats(axes[i])
  }

  // ---------------------------------------------------------------- mixed radix

  predicate Positive(radices: seq<int>) {
    forall i :: 0 <= i < |radices| ==> radices[i] > 0
  }

  /** `grammar_size`. */
  function Size(radices: seq<int>): (n: int)
    requires Positive(radices)
    ensures n >= 1
  {
    if radices == [] then 1
    else
      var n := |radices| - 1;
      Size(radices[..n]) * radices[n]
  }

  predicate Choices(radices: seq<int>, digits: seq<int>) {
    |digits| == |radices| && forall i :: 0 <= i < |radices| ==> 0 <= digits[i] < radices[i]
  }

  /** The axis choices of a flat index: `divmod` from the last axis to the first. */
  function Digits(radices: seq<int>, flat: int): (d: seq<int>)
    requires Positive(radices)
    ensures Choices(radices, d)
  {
    if radices == [] then []
    else
      var n := |radices| - 1;
      Digits(radices[..n], flat / radices[n]) + [flat % radices[n]]
  }

  /** The flat index of axis choices. */
  function Flat(radices: seq<int>, digits: seq<int>): int
    requires |digits| == |radices|
  {
    if radices == [] then 0
    else
      var n := |radices| - 1;
      Flat(radices[..n], digits[..n]) * radices[n] + digits[n]
  }

  lemma QuotientBelow(flat: int, total: int, r: int)
    requires r > 0 && 0 <= flat < total * r
    ensures 0 <= flat / r < total
  {
    var q := flat / r;
    assert flat == q * r + flat % r;
    if q >= total {
      if q > total {
        Apart(r, total, q);
      }
    } else if q < 0 {
      Apart(r, q, 0);
    }
  }

  lemma {:induction false} FlatInRange(radices: seq<int>, digits: seq<int>)
    requires Positive(radices) && Choices(radices, digits)
    ensures 0 <= Flat(radices, digits) < Size(radices)
  {
    if radices != [] {
      var n := |radices| - 1;
      FlatInRange(radices[..n], digits[..n]);
      var f, s, r := Flat(radices[..n], digits[..n]), Size(radices[..n]), radices[n];
      Apart(r, f, s);
      if f > 0 {
        Apart(r, 0, f);
      }
    }
  }

  /** The flat indices below the grammar's size and the tuples of axis choices are in
      one-to-one correspondence. */
  lemma {:induction false} FlatOfDigits(radices: seq<int>, flat: int)
    requires Positive(radices) && 0 <= flat < Size(radices)
    ensures Flat(radices, Digits(radices, flat)) == flat
  {
    if radices != [] {
      var n := |radices| - 1;
      var r := radices[n];
      QuotientBelow(flat, Size(radices[..n]), r);
      FlatOfDigits(radices[..n], flat / r);
      var d := Digits(radices, flat);
      assert d[..n] == Digits(radices[..n], flat / r);
    }
  }

  lemma {:induction false} DigitsOfFlat(radices: seq<int>, digits: seq<int>)
    requires Positive(radices) && Choices(radices, digits)
    ensures Digits(radices, Flat(radices, digits)) == digits
  {
    if radices != [] {
      var n := |radices| - 1;
      DivModUndo(Flat(radices[..n], digits[..n]), digits[n], radices[n]);
      DigitsOfFlat(radices[..n], digits[..n]);
      assert digits == digits[..n] + [digits[n]];
    }
  }

  // ---------------------------------------------------------------- cells

  function Radices(axes: Axes): (r: seq<int>)
    ensures |r| == |axes|
  {
    seq(|axes|, i requires 0 <= i < |axes| => |axes[i]|)
  }

  /** The cell with the given choice on each axis. */
  function Named(axes: Axes, digits: seq<int>): (c: Cell)
    requires Choices(Radices(axes), digits)
    ensures |c| == |axes|
  {
    seq(|axes|, i requires 0 <= i < |axes| => axes[i][digits[i]])
  }

  /** `values.index(name)`. */
  function IndexIn(values: seq<string>, name: string): nat {
    if values == [] || values[0] == name then 0 else 1 + IndexIn(values[1..], name)
  }

  /** Every axis of the cell holds one of that axis's names. */
  predicate InGrammar(axes: Axes, c: Cell) {
    |c| == |axes| && forall i :: 0 <= i < |axes| ==> c[i] in axes[i]
  }

  function Positions(axes: Axes, c: Cell): (d: seq<int>)
    requires |c| == |axes|
    ensures |d| == |axes|
  {
    seq(|axes|, i requires 0 <= i < |axes| => IndexIn(axes[i], c[i]))
  }

  lemma {:induction false} IndexFound(values: seq<string>, name: string)
    requires name in values
    ensures IndexIn(values, name) < |values| && values[IndexIn(values, name)] == name
  {
    if values[0] != name {
      assert values == [values[0]] + values[1..];
      IndexFound(values[1..], name);
    }
  }

  lemma {:induction false} IndexUnique(values: seq<string>, k: nat)
    requires NoRepeats(values) && k < |values|
    ensures IndexIn(values, values[k]) == k
  {
    if k > 0 {
      IndexUnique(values[1..], k - 1);
    }
  }

  lemma PositionsOfNamed(axes: Axes, digits: seq<int>)
    requires WellFormed(axes) && Choices(Radices(axes), digits)
    ensures InGrammar(axes, Named(axes, digits)) && Positions(axes, Named(axes, digits)) == digits
  {
    forall i | 0 <= i < |axes| ensures IndexIn(axes[i], Named(axes, digits)[i]) == digits[i] {
      IndexUnique(axes[i], digits[i]);
    }
  }

  lemma NamedOfPositions(axes: Axes, c: Cell)
    requires InGrammar(axes, c)
    ensures Choices(Radices(axes), Positions(axes, c)) && Named(axes, Positions(axes, c)) == c
  {
    forall i | 0 <= i < |axes|
      ensures IndexIn(axes[i], c[i]) < |axes[i]| && axes[i][IndexIn(axes[i], c[i])] == c[i]
    {
      IndexFound(axes[i], c[i]);
    }
  }

  function CellOf(axes: Axes, flat: int): Cell
    requires Positive(Radices(axes))
  {
    Named(axes, Digits(Radices(axes), flat))
  }

  /** One turn of the loop takes the last remaining digit off. */
  lemma PeelAxis(radices: seq<int>, all: seq<int>, i: nat, flat: int)
    requires Positive(radices) && 0 < i <= |radices| && |all| == |radices| && Digits(radices[..i], flat) == all[..i]
    ensures flat % radices[i - 1] == all[i - 1]
    ensures Digits(radices[..i - 1], flat / radices[i - 1]) == all[..i - 1]
  {
    var part := radices[..i];
    assert part[..i - 1] == radices[..i - 1] && part[i - 1] == radices[i - 1];
    assert all[..i][..i - 1] == all[..i - 1] && all[..i][i - 1] == all[i - 1];
  }

  /** With the axes from i on done, the cell so far is the end of the answer, and the flat index
      left decodes to its beginning. */
  ghost predicate Peeled(axes: Axes, flat0: int, i: int, flat: int, cell: Cell)
    requires Positive(Radices(axes)) && 0 <= i <= |axes|
  {
    && cell == CellOf(axes, flat0)[i..]
    && Digits(Radices(axes)[..i], flat) == Digits(Radices(axes), flat0)[..i]
  }

  lemma PeelStep(axes: Axes, flat0: int, i: nat, flat: int, cell: Cell)
    requires Positive(Radices(axes)) && 0 < i <= |axes| && Peeled(axes, flat0, i, flat, cell)
    ensures var r := |axes[i - 1]|;
            && r > 0 && 0 <= flat % r < r
            && Peeled(axes, flat0, i - 1, flat / r, [axes[i - 1][flat % r]] + cell)
  {
    var radices := Radices(axes);
    var all, spec := Digits(radices, flat0), CellOf(axes, flat0);
    PeelAxis(radices, all, i, flat);
    assert radices[i - 1] == |axes[i - 1]|;
    assert spec[i - 1] == axes[i - 1][all[i - 1]];
    assert spec[i - 1..] == [spec[i - 1]] + spec[i..];
  }

  /** `cell_at`: the loop over the reversed axes that divides the flat index down. */
  method CellAt(axes: Axes, flat0: int) returns (cell: Cell)
    requires Positive(Radices(axes))
    ensures cell == CellOf(axes, flat0)
  {
    var flat := flat0;
    cell := [];
    var i := |axes|;
    assert Radices(axes)[..i] == Radices(axes);
    while i > 0
      invariant 0 <= i <= |axes| && Peeled(axes, flat0, i, flat, cell)
    {
      PeelStep(axes, flat0, i, flat, cell);
      i := i - 1;
      var k := flat % |axes[i]|;
      flat := flat / |axes[i]|;
      cell := [axes[i][k]] + cell;
    }
  }

  /** Every flat index names a cell of the grammar, different indices different cells, and
      every cell has an index. */
  lemma CellsAreFlats(axes: Axes)
    requires WellFormed(axes)
    ensures Positive(Radices(axes))
    ensures forall f :: 0 <= f < Size(Radices(axes)) ==> InGrammar(axes, CellOf(axes, f))
    ensures forall f, g :: 0 <= f < g < Size(Radices(axes)) ==> CellOf(axes, f) != CellOf(axes, g)
    ensures forall c :: InGrammar(axes, c) ==> exists f :: 0 <= f < Size(Radices(axes)) && CellOf(axes, f) == c
  {
    var radices := Radices(axes);
    forall f | 0 <= f < Size(radices)
      ensures InGrammar(axes, CellOf(axes, f)) && Flat(radices, Positions(axes, CellOf(axes, f))) == f
    {
      PositionsOfNamed(axes, Digits(radices, f));
      FlatOfDigits(radices, f);
    }
    forall c | InGrammar(axes, c) ensures exists f :: 0 <= f < Size(radices) && CellOf(axes, f) == c {
      NamedOfPositions(axes, c);
      var f := Flat(radices, Positions(axes, c));
      FlatInRange(radices, Positions(axes, c));
      DigitsOfFlat(radices, Positions(axes, c));
      assert CellOf(axes, f) == c;
    }
  }

  ghost predicate VisitingOrder(order: seq<int>, n: int) {
    NoRepeats(order) && forall f :: f in order <==> 0 <= f < n
  }

  /** The cells in the order the generator visits them. */
  function Visit(axes: Axes, order: seq<int>): (cells: seq<Cell>)
    requires Positive(Radices(axes))
    ensures |cells| == |order|
  {
    seq(|order|, i requires 0 <= i < |order| => CellOf(axes, order[i]))
  }

  /** Visiting a permutation of the flat indices meets each cell of the grammar exactly once. */
  lemma VisitMeetsEachOnce(axes: Axes, order: seq<int>)
    requires WellFormed(axes)
    requires Positive(Radices(axes)) && VisitingOrder(order, Size(Radices(axes)))
    ensures NoRepeats(Visit(axes, order))
    ensures forall c :: c in Visit(axes, order) <==> InGrammar(axes, c)
  {
    CellsAreFlats(axes);
    var cells, n := Visit(axes, order), Size(Radices(axes));
    forall i | 0 <= i < |order| ensures 0 <= order[i] < n {
      var f := order[i];
      assert f in order;
    }
    forall i, j | 0 <= i < j < |cells| ensures cells[i] != cells[j] {
      var f, g := order[i], order[j];
      assert f != g;
    }
    forall c ensures c in cells <==> InGrammar(axes, c) {
      if InGrammar(axes, c) {
        VisitMeets(axes, order, c);
      }
    }
  }

  lemma VisitMeets(axes: Axes, order: seq<int>, c: Cell)
    requires WellFormed(axes) && InGrammar(axes, c)
    requires Positive(Radices(axes)) && VisitingOrder(order, Size(Radices(axes)))
    ensures c in Visit(axes, order)
  {
    CellsAreFlats(axes);
    var f :| 0 <= f < Size(Radices(axes)) && CellOf(axes, f) == c;
    assert f in order;
    var i :| 0 <= i < |order| && order[i] == f;
    assert Visit(axes, order)[i] == c;
  }
}
