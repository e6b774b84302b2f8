/** Python's `range` with a step of either sign, as the sharding code uses it. */
module Ranges {
  import opened Arithmetic

  /** `list(range(k, stop, n))`. */
  function Range(k: int, stop: int, n: int): seq<int>
    requires n != 0
    decreases if n > 0 then stop - k else k - stop
  {
    if n > 0 then
      if k >= stop then [] else [k] + Range(k + n, stop, n)
    else
      if k <= stop then [] else [k] + Range(k + n, stop, n)
  }

  function ToSet(s: seq<int>): set<int> {
    set i | i in s
  }

  function Union(sets: seq<set<int>>): set<int> {
    if sets == [] then {} else Union(sets[..|sets| - 1]) + sets[|sets| - 1]
  }

  lemma {:induction false} UnionMember(sets: seq<set<int>>, i: int)
    ensures i in Union(sets) <==> exists k :: 0 <= k < |sets| && i in sets[k]
  {
    if sets != [] {
      var n := |sets| - 1;
      UnionMember(sets[..n], i);
      if i in Union(sets[..n]) {
        var k :| 0 <= k < n && i in sets[..n][k];
        assert i in sets[k];
      }
      if k :| 0 <= k < |sets| && i in sets[k] {
        assert k < n ==> i in sets[..n][k];
      }
    }
  }

  /** No element is in two of the sets. */
  ghost predicate Disjoint(sets: seq<set<int>>) {
    forall i, j, x :: 0 <= i < j < |sets| && x in sets[i] ==> x !in sets[j]
  }

  lemma DisjointStep(sets: seq<set<int>>, k: nat)
    requires k < |sets| && Disjoint(sets[..k]) && forall x :: x in sets[k] ==> x !in Union(sets[..k])
    ensures Disjoint(sets[..k + 1])
  {
    var more := sets[..k + 1];
    forall i, j, x | 0 <= i < j < |more| && x in more[i] ensures x !in more[j] {
      assert sets[..k][i] == more[i];
      if j < k {
        assert sets[..k][j] == more[j];
      } else {
        UnionMember(sets[..k], x);
      }
    }
  }

  lemma OverlapFound(sets: seq<set<int>>, k: nat, x: int)
    requires k < |sets| && x in sets[k] && x in Union(sets[..k])
    ensures !Disjoint(sets)
  {
    UnionMember(sets[..k], x);
    var j :| 0 <= j < k && x in sets[..k][j];
    assert x in sets[j];
  }

  lemma ModShift(x: int, n: int)
    requires n > 0
    ensures (x - n) % n == x % n
  {
    var q, r := x / n, x % n;
    assert x == q * n + r;
    assert x - n == (q - 1) * n + r;
    DivModUndo(q - 1, r, n);
  }

  lemma {:induction false} RangeMembers(k: int, stop: int, n: int, j: int)
    requires n > 0
    ensures j in Range(k, stop, n) <==> k <= j < stop && (j - k) % n == 0
    decreases stop - k
  {
    if k < stop {
      RangeMembers(k + n, stop, n, j);
      ModShift(j - k, n);
      if k < j < k + n {
      }
    }
  }

  /** A negative step counts down, from k and above `stop`. */
  lemma {:induction false} DownwardMembers(k: int, stop: int, n: int, j: int)
    requires n < 0
    ensures j in Range(k, stop, n) <==> stop < j <= k && (k - j) % (-n) == 0
    decreases k - stop
  {
    if k > stop {
      DownwardMembers(k + n, stop, n, j);
      ModShift(k - j, -n);
      if k + n < j < k {
      }
    }
  }

  ghost predicate Increasing(s: seq<int>) {
    forall i, j :: 0 <= i < j < |s| ==> s[i] < s[j]
  }

  lemma {:induction false} RangeIncreasing(k: int, stop: int, n: int)
    requires n > 0
    ensures forall i :: 0 <= i < |Range(k, stop, n)| ==> k <= Range(k, stop, n)[i] < stop
    ensures Increasing(Range(k, stop, n))
    decreases stop - k
  {
    if k < stop {
      RangeIncreasing(k + n, stop, n);
    }
  }
}
