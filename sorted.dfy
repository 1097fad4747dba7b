/** Sorted, duplicate-free integer lists: the `SortAndUniq`/`IsSortedAndUniq` helpers the analysis
    relies on, `std::lower_bound`, and the run of consecutive variable indexes a sub-matrix owns. */
module Sorted {

  /** Strictly increasing: sorted and free of duplicates. */
  predicate StrictlySorted(s: seq<int>) {
    forall i, j :: 0 <= i < j < |s| ==> s[i] < s[j]
  }

  /** Inserts `x` into a strictly increasing list, keeping it strictly increasing. */
  function Insert(s: seq<int>, x: int): (r: seq<int>)
    requires StrictlySorted(s)
    ensures StrictlySorted(r)
    ensures forall y :: y in r <==> y in s || y == x
    ensures |r| <= |s| + 1
  {
    if s == [] then [x]
    else if x < s[0] then [x] + s
    else if x == s[0] then s
    else
      var tail := Insert(s[1..], x);
      assert forall y :: y in tail ==> s[0] < y;
      ConsSorted(s[0], tail);
      [s[0]] + tail
  }

  /** A strictly increasing list stays so when an element below all of it is put in front. */
  lemma ConsSorted(x: int, s: seq<int>)
    requires StrictlySorted(s) && forall y :: y in s ==> x < y
    ensures StrictlySorted([x] + s)
  {
    var r := [x] + s;
    forall i, j | 0 <= i < j < |r| ensures r[i] < r[j] {
      assert r[j] == s[j - 1] && s[j - 1] in s;
      if i > 0 {
        assert r[i] == s[i - 1];
      }
    }
  }

  /** Sorts a list and removes duplicates. */
  function SortAndUniq(s: seq<int>): (r: seq<int>)
    ensures StrictlySorted(r)
    ensures forall y :: y in r <==> y in s
    ensures |r| <= |s|
  {
    if s == [] then [] else Insert(SortAndUniq(s[..|s| - 1]), s[|s| - 1])
  }

  /** Two strictly increasing lists with the same elements are the same list. */
  lemma {:induction false} SortedUnique(a: seq<int>, b: seq<int>)
    requires StrictlySorted(a) && StrictlySorted(b)
    requires forall y :: y in a <==> y in b
    ensures a == b
  {
    assert a != [] ==> a[0] in a && a[0] in b;
    assert b != [] ==> b[0] in b && b[0] in a;
    if a != [] && b != [] {
      // the heads are both the least common element
      assert a[0] == b[0] by {
        var i :| 0 <= i < |b| && b[i] == a[0];
        var j :| 0 <= j < |a| && a[j] == b[0];
        assert a[0] <= a[j];
        assert b[0] <= b[i];
      }
      forall y ensures y in a[1..] <==> y in b[1..] {
        if y in a[1..] {
          var k :| 1 <= k < |a| && a[k] == y;
          assert y in b && y != b[0];
        }
        if y in b[1..] {
          var k :| 1 <= k < |b| && b[k] == y;
          assert y in a && y != a[0];
        }
      }
      SortedUnique(a[1..], b[1..]);
      assert a == [a[0]] + a[1..];
      assert b == [b[0]] + b[1..];
    }
  }

  /** Sorting an already strictly increasing list leaves it unchanged. */
  lemma SortAndUniqOfSorted(s: seq<int>)
    requires StrictlySorted(s)
    ensures SortAndUniq(s) == s
  {
    SortedUnique(SortAndUniq(s), s);
  }

  /** `std::lower_bound` on `s[from..]`: the first position at or after `from` whose element is not
      below `x`, or `|s|` when there is none. */
  function LowerBound(s: seq<int>, from: nat, x: int): (k: nat)
    requires from <= |s|
    ensures from <= k <= |s|
    ensures forall i :: from <= i < k ==> s[i] < x
    ensures k < |s| ==> s[k] >= x
    decreases |s| - from
  {
    if from == |s| then from
    else if s[from] >= x then from
    else LowerBound(s, from + 1, x)
  }

  /** On a strictly increasing list, `LowerBound` lands on `x` exactly when `x` occurs at or after
      `from`, and then it lands on the position of `x`. */
  lemma LowerBoundFinds(s: seq<int>, from: nat, x: int)
    requires StrictlySorted(s) && from <= |s|
    ensures var k := LowerBound(s, from, x);
            (k < |s| && s[k] == x) <==> (exists i :: from <= i < |s| && s[i] == x)
  {
    var k := LowerBound(s, from, x);
    if i :| from <= i < |s| && s[i] == x {
      assert !(i < k);
    }
  }

  /** The consecutive integers `lo, lo + 1, ..., hi - 1` (empty when `hi <= lo`). */
  function Interval(lo: int, hi: int): (r: seq<int>)
    ensures |r| == if hi <= lo then 0 else hi - lo
    ensures forall k :: 0 <= k < |r| ==> r[k] == lo + k
  {
    seq(if hi <= lo then 0 else hi - lo, k => lo + k)
  }

  lemma IntervalMembers(lo: int, hi: int)
    ensures forall v :: v in Interval(lo, hi) <==> lo <= v < hi
  {
    var r := Interval(lo, hi);
    forall v | lo <= v < hi ensures v in r {
      assert r[v - lo] == v;
    }
  }
}
