/** Sums, flattening, filtering and sorting of sequences: the vocabulary the other
    modules share. */
module Sequences {

  datatype Option<+T> = None | Some(value: T)

  datatype Result<+T> = Ok(value: T) | Err(error: string)

  // ---------------------------------------------------------------- sums

  function Sum(s: seq<real>): real {
    if s == [] then 0.0 else s[0] + Sum(s[1..])
  }

  lemma {:induction false} SumAppend(a: seq<real>, b: seq<real>)
    ensures Sum(a + b) == Sum(a) + Sum(b)
  {
    if a == [] {
      assert a + b == b;
    } else {
      assert (a + b)[1..] == a[1..] + b;
      SumAppend(a[1..], b);
    }
  }

  /** The sum of a sequence grows by its last element. */
  lemma SumSnoc(a: seq<real>, i: nat)
    requires i < |a|
    ensures Sum(a[..i + 1]) == Sum(a[..i]) + a[i]
  {
    assert a[..i + 1] == a[..i] + [a[i]];
    SumAppend(a[..i], [a[i]]);
  }

  function Total(s: seq<int>): int {
    if s == [] then 0 else s[0] + Total(s[1..])
  }

  lemma {:induction false} TotalAppend(a: seq<int>, b: seq<int>)
    ensures Total(a + b) == Total(a) + Total(b)
  {
    if a == [] {
      assert a + b == b;
    } else {
      assert (a + b)[1..] == a[1..] + b;
      TotalAppend(a[1..], b);
    }
  }

  lemma TotalSnoc(a: seq<int>, i: nat)
    requires i < |a|
    ensures Total(a[..i + 1]) == Total(a[..i]) + a[i]
  {
    assert a[..i + 1] == a[..i] + [a[i]];
    TotalAppend(a[..i], [a[i]]);
  }

  /** Running totals: element i is a[0] + ... + a[i]. */
  function CumSum(a: seq<int>): (r: seq<int>)
    ensures |r| == |a|
  {
    seq(|a|, i requires 0 <= i < |a| => Total(a[..i + 1]))
  }

  // ---------------------------------------------------------------- flattening

  function Flatten<T>(ss: seq<seq<T>>): seq<T> {
    if ss == [] then [] else ss[0] + Flatten(ss[1..])
  }

  function Lengths<T>(ss: seq<seq<T>>): (r: seq<int>)
    ensures |r| == |ss|
    ensures forall i :: 0 <= i < |ss| ==> r[i] == |ss[i]|
  {
    seq(|ss|, i requires 0 <= i < |ss| => |ss[i]|)
  }

  lemma {:induction false} FlattenLength<T>(ss: seq<seq<T>>)
    ensures |Flatten(ss)| == Total(Lengths(ss))
  {
    if ss != [] {
      FlattenLength(ss[1..]);
      assert Lengths(ss)[1..] == Lengths(ss[1..]);
    }
  }

  /** Which block the position p of a flattened sequence falls in, and where. */
  lemma {:induction false} FlattenAt<T>(ss: seq<seq<T>>, p: nat) returns (i: nat, w: nat)
    requires p < Total(Lengths(ss))
    ensures i < |ss| && w < |ss[i]|
    ensures p == Total(Lengths(ss)[..i]) + w
    ensures p < |Flatten(ss)| && Flatten(ss)[p] == ss[i][w]
  {
    FlattenLength(ss);
    if p < |ss[0]| {
      i, w := 0, p;
    } else {
      assert Lengths(ss)[1..] == Lengths(ss[1..]);
      var i', w' := FlattenAt(ss[1..], p - |ss[0]|);
      i, w := i' + 1, w';
      assert Lengths(ss)[..i][1..] == Lengths(ss[1..])[..i'];
    }
  }

  /** A position determines its block. */
  lemma {:induction false} BlockUnique(c: seq<int>, i: nat, w: nat, j: nat, v: nat)
    requires forall k :: 0 <= k < |c| ==> 0 <= c[k]
    requires i < |c| && j < |c| && w < c[i] && v < c[j]
    requires Total(c[..i]) + w == Total(c[..j]) + v
    ensures i == j && w == v
  {
    if i < j {
      PrefixMonotone(c, i + 1, j);
      TotalSnoc(c, i);
    } else if j < i {
      PrefixMonotone(c, j + 1, i);
      TotalSnoc(c, j);
    }
  }

  lemma {:induction false} PrefixMonotone(c: seq<int>, i: nat, j: nat)
    requires forall k :: 0 <= k < |c| ==> 0 <= c[k]
    requires i <= j <= |c|
    ensures Total(c[..i]) <= Total(c[..j])
    decreases j
  {
    if i < j {
      PrefixMonotone(c, i, j - 1);
      TotalSnoc(c, j - 1);
    }
  }

  // ---------------------------------------------------------------- sorting

  ghost predicate TotalPreorder<T(!new)>(le: (T, T) -> bool) {
    && (forall x, y :: le(x, y) || le(y, x))
    && (forall x, y, z :: le(x, y) && le(y, z) ==> le(x, z))
  }

  ghost predicate SortedBy<T>(s: seq<T>, le: (T, T) -> bool) {
    forall i, j :: 0 <= i < j < |s| ==> le(s[i], s[j])
  }

  /** Two elements that the order cannot separate are the same element. */
  ghost predicate Separates<T>(s: seq<T>, le: (T, T) -> bool) {
    forall i, j :: 0 <= i < |s| && 0 <= j < |s| && le(s[i], s[j]) && le(s[j], s[i]) ==> s[i] == s[j]
  }

  function Insert<T>(x: T, s: seq<T>, le: (T, T) -> bool): seq<T> {
    if s == [] then [x]
    else if le(x, s[0]) then [x] + s
    else [s[0]] + Insert(x, s[1..], le)
  }

  /** Python's stable `list.sort`. */
  function SortBy<T>(s: seq<T>, le: (T, T) -> bool): seq<T> {
    if s == [] then [] else Insert(s[0], SortBy(s[1..], le), le)
  }

  lemma {:induction false} InsertKeeps<T>(x: T, s: seq<T>, le: (T, T) -> bool)
    ensures multiset(Insert(x, s, le)) == multiset(s) + multiset{x}
  {
    if s != [] && !le(x, s[0]) {
      InsertKeeps(x, s[1..], le);
      assert s == [s[0]] + s[1..];
    }
  }

  lemma {:induction false} SortPermutes<T>(s: seq<T>, le: (T, T) -> bool)
    ensures multiset(SortBy(s, le)) == multiset(s)
  {
    if s != [] {
      SortPermutes(s[1..], le);
      InsertKeeps(s[0], SortBy(s[1..], le), le);
      assert s == [s[0]] + s[1..];
    }
  }

  lemma SortKeeps<T>(s: seq<T>, le: (T, T) -> bool)
    ensures multiset(SortBy(s, le)) == multiset(s)
    ensures |SortBy(s, le)| == |s|
    ensures forall x :: x in SortBy(s, le) <==> x in s
  {
    SortPermutes(s, le);
    SamePermutation(SortBy(s, le), s);
  }

  lemma SamePermutation<T>(s: seq<T>, t: seq<T>)
    requires multiset(s) == multiset(t)
    ensures |s| == |t| && forall x :: x in s <==> x in t
  {
    assert |multiset(s)| == |s| && |multiset(t)| == |t|;
    assert forall x :: x in s <==> x in multiset(s);
    assert forall x :: x in t <==> x in multiset(t);
  }

  lemma {:induction false} InsertSorts<T(!new)>(x: T, s: seq<T>, le: (T, T) -> bool)
    requires TotalPreorder(le) && SortedBy(s, le)
    ensures SortedBy(Insert(x, s, le), le)
  {
    if s != [] && !le(x, s[0]) {
      InsertSorts(x, s[1..], le);
      InsertKeeps(x, s[1..], le);
      var t := Insert(x, s[1..], le);
      forall j | 0 <= j < |t| ensures le(s[0], t[j]) {
        assert t[j] in multiset(t);
        assert t[j] == x || t[j] in s[1..];
      }
    }
  }

  lemma {:induction false} SortSorts<T(!new)>(s: seq<T>, le: (T, T) -> bool)
    requires TotalPreorder(le)
    ensures SortedBy(SortBy(s, le), le)
  {
    if s != [] {
      SortSorts(s[1..], le);
      InsertSorts(s[0], SortBy(s[1..], le), le);
    }
  }

  lemma TailCounts<T>(s: seq<T>)
    requires s != []
    ensures multiset(s[1..]) == multiset(s) - multiset{s[0]}
  {
    assert s == [s[0]] + s[1..];
  }

  lemma SameHead<T>(s: seq<T>, t: seq<T>, le: (T, T) -> bool)
    requires s != [] && t != [] && multiset(s) == multiset(t)
    requires SortedBy(s, le) && SortedBy(t, le) && Separates(s, le)
    ensures s[0] == t[0]
  {
    SamePermutation(s, t);
    assert s[0] in t && t[0] in s;
    var i :| 0 <= i < |t| && t[i] == s[0];
    var j :| 0 <= j < |s| && s[j] == t[0];
    assert j > 0 ==> le(s[0], s[j]);
    assert i > 0 ==> le(t[0], t[i]);
  }

  lemma TailsSorted<T>(s: seq<T>, t: seq<T>, le: (T, T) -> bool)
    requires s != [] && t != [] && s[0] == t[0] && multiset(s) == multiset(t)
    requires SortedBy(s, le) && SortedBy(t, le) && Separates(s, le)
    ensures multiset(s[1..]) == multiset(t[1..])
    ensures SortedBy(s[1..], le) && SortedBy(t[1..], le) && Separates(s[1..], le)
  {
    TailCounts(s);
    TailCounts(t);
  }

  /** A sorted arrangement of separated elements is unique. */
  lemma {:induction false} SortedUnique<T>(s: seq<T>, t: seq<T>, le: (T, T) -> bool)
    requires multiset(s) == multiset(t)
    requires SortedBy(s, le) && SortedBy(t, le) && Separates(s, le)
    ensures s == t
  {
    SamePermutation(s, t);
    if s != [] {
      SameHead(s, t, le);
      TailsSorted(s, t, le);
      SortedUnique(s[1..], t[1..], le);
      assert s == [s[0]] + s[1..] && t == [t[0]] + t[1..];
    }
  }

  /** Sorting forgets the order its input came in. */
  lemma SortConfluent<T(!new)>(s: seq<T>, t: seq<T>, le: (T, T) -> bool)
    requires TotalPreorder(le) && multiset(s) == multiset(t) && Separates(s, le)
    ensures SortBy(s, le) == SortBy(t, le)
  {
    SortSorts(s, le);
    SortSorts(t, le);
    SortKeeps(s, le);
    SortKeeps(t, le);
    var sorted := SortBy(s, le);
    forall i, j | 0 <= i < |s| && 0 <= j < |s| && le(sorted[i], sorted[j]) && le(sorted[j], sorted[i])
      ensures sorted[i] == sorted[j]
    {
      assert sorted[i] in s && sorted[j] in s;
    }
    SortedUnique(sorted, SortBy(t, le), le);
  }

  // ---------------------------------------------------------------- distinct elements

  ghost predicate NoRepeats<T>(s: seq<T>) {
    forall i, j :: 0 <= i < j < |s| ==> s[i] != s[j]
  }

  lemma {:induction false} CountsOne<T>(s: seq<T>, x: T)
    requires NoRepeats(s)
    ensures multiset(s)[x] == if x in s then 1 else 0
  {
    if s != [] {
      CountsOne(s[1..], x);
      assert s == [s[0]] + s[1..];
    }
  }

  /** Two sequences without repeats that hold the same elements are permutations. */
  lemma SameElements<T(!new)>(s: seq<T>, t: seq<T>)
    requires NoRepeats(s) && NoRepeats(t) && forall x :: x in s <==> x in t
    ensures multiset(s) == multiset(t)
  {
    forall x ensures multiset(s)[x] == multiset(t)[x] {
      CountsOne(s, x);
      CountsOne(t, x);
    }
  }

  lemma TwiceCounted<T>(s: seq<T>, i: nat, j: nat)
    requires i < j < |s| && s[i] == s[j]
    ensures multiset(s)[s[i]] >= 2
  {
    assert s == s[..j] + [s[j]] + s[j + 1..];
    assert s[i] in s[..j];
    assert multiset(s) == multiset(s[..j]) + multiset{s[j]} + multiset(s[j + 1..]);
  }

  /** A permutation of a sequence without repeats has none. */
  lemma NoRepeatsSplit<T>(a: seq<T>, b: seq<T>)
    requires NoRepeats(a + b)
    ensures NoRepeats(a) && NoRepeats(b)
  {
    forall i, j | 0 <= i < j < |a| ensures a[i] != a[j] {
      assert (a + b)[i] == a[i] && (a + b)[j] == a[j];
    }
    forall i, j | 0 <= i < j < |b| ensures b[i] != b[j] {
      assert (a + b)[|a| + i] == b[i] && (a + b)[|a| + j] == b[j];
    }
  }

  lemma NoRepeatsKept<T>(s: seq<T>, t: seq<T>)
    requires NoRepeats(s) && multiset(s) == multiset(t)
    ensures NoRepeats(t)
  {
    forall i, j | 0 <= i < j < |t| ensures t[i] != t[j] {
      if t[i] == t[j] {
        TwiceCounted(t, i, j);
        CountsOne(s, t[i]);
      }
    }
  }
}
