/** Lists of (sub-matrix, row) pairs in the lexicographic order `std::sort` gives them, and the
    adjacent-duplicate scan the index pass runs on the sorted copy. */
module PairOrder {

  /** Lexicographic order on pairs. */
  predicate LexLe(p: (int, int), q: (int, int)) {
    p.0 < q.0 || (p.0 == q.0 && p.1 <= q.1)
  }

  predicate SortedPairs(s: seq<(int, int)>) {
    forall i, j :: 0 <= i < j < |s| ==> LexLe(s[i], s[j])
  }

  function InsertPair(s: seq<(int, int)>, p: (int, int)): (r: seq<(int, int)>)
    requires SortedPairs(s)
    ensures SortedPairs(r)
    ensures multiset(r) == multiset(s) + multiset{p}
    ensures |r| == |s| + 1
  {
    if s == [] then [p]
    else if LexLe(p, s[0]) then [p] + s
    else
      var tail := InsertPair(s[1..], p);
      assert s == [s[0]] + s[1..];
      assert forall k :: 0 <= k < |tail| ==> LexLe(s[0], tail[k]) by {
        forall k | 0 <= k < |tail| ensures LexLe(s[0], tail[k]) {
          assert tail[k] in multiset(tail);
          if tail[k] != p {
            assert tail[k] in multiset(s[1..]);
            var i :| 0 <= i < |s[1..]| && s[1..][i] == tail[k];
            assert s[i + 1] == tail[k];
          }
        }
      }
      [s[0]] + tail
  }

  /** `std::sort` on a list of pairs: sorted, with the same elements and multiplicities. */
  function SortPairs(s: seq<(int, int)>): (r: seq<(int, int)>)
    ensures SortedPairs(r)
    ensures multiset(r) == multiset(s)
    ensures |r| == |s|
  {
    if s == [] then []
    else
      assert s == s[..|s| - 1] + [s[|s| - 1]];
      InsertPair(SortPairs(s[..|s| - 1]), s[|s| - 1])
  }

  /** Some pair other than (-1, ...) occurs at two positions. */
  predicate HasDuplicate(s: seq<(int, int)>) {
    exists i, j :: 0 <= i < j < |s| && s[i] == s[j] && s[i].0 != -1
  }

  /** The first position `k >= from` whose pair equals the next one and is not a -1 pair. */
  function FirstAdjacentDuplicate(s: seq<(int, int)>, from: nat): (k: int)
    requires from <= |s|
    ensures k == -1 || (from <= k && k + 1 < |s| && s[k] == s[k + 1] && s[k].0 != -1)
    ensures k == -1 <==> forall i :: from <= i && i + 1 < |s| ==> !(s[i] == s[i + 1] && s[i].0 != -1)
    decreases |s| - from
  {
    if from + 1 >= |s| then -1
    else if s[from] == s[from + 1] && s[from].0 != -1 then from
    else FirstAdjacentDuplicate(s, from + 1)
  }

  /** A pair occurs at least twice in a list exactly when the list has two positions holding it. */
  lemma {:induction false} TwoPositions(s: seq<(int, int)>, p: (int, int))
    ensures multiset(s)[p] >= 2 <==> exists i, j :: 0 <= i < j < |s| && s[i] == p && s[j] == p
  {
    if s != [] {
      var init := s[..|s| - 1];
      assert s == init + [s[|s| - 1]];
      TwoPositions(init, p);
      if multiset(s)[p] >= 2 && s[|s| - 1] == p && multiset(init)[p] == 1 {
        assert p in multiset(init);
        var i :| 0 <= i < |init| && init[i] == p;
        assert s[i] == p && s[|s| - 1] == p;
      }
      if exists i, j :: 0 <= i < j < |s| && s[i] == p && s[j] == p {
        var i, j :| 0 <= i < j < |s| && s[i] == p && s[j] == p;
        if j < |s| - 1 {
          assert init[i] == p && init[j] == p;
        } else {
          assert init[i] == p;
          assert p in multiset(init);
        }
      }
    }
  }

  /** Lists with the same elements and multiplicities have the same duplicates. */
  lemma DuplicatePreserved(a: seq<(int, int)>, b: seq<(int, int)>)
    requires multiset(a) == multiset(b)
    ensures HasDuplicate(a) <==> HasDuplicate(b)
  {
    if HasDuplicate(a) {
      var i, j :| 0 <= i < j < |a| && a[i] == a[j] && a[i].0 != -1;
      TwoPositions(a, a[i]);
      TwoPositions(b, a[i]);
    }
    if HasDuplicate(b) {
      var i, j :| 0 <= i < j < |b| && b[i] == b[j] && b[i].0 != -1;
      TwoPositions(a, b[i]);
      TwoPositions(b, b[i]);
    }
  }

  /** In a sorted list, equal pairs at two positions are equal to everything between, so some
      pair equals its neighbour. */
  lemma SortedDuplicateAdjacent(s: seq<(int, int)>)
    requires SortedPairs(s)
    ensures HasDuplicate(s) <==> exists k :: 0 <= k && k + 1 < |s| && s[k] == s[k + 1] && s[k].0 != -1
  {
    if HasDuplicate(s) {
      var i, j :| 0 <= i < j < |s| && s[i] == s[j] && s[i].0 != -1;
      assert LexLe(s[i], s[i + 1]) && LexLe(s[i + 1], s[j]);
      assert s[i] == s[i + 1];
    }
    if exists k :: 0 <= k && k + 1 < |s| && s[k] == s[k + 1] && s[k].0 != -1 {
      var k :| 0 <= k && k + 1 < |s| && s[k] == s[k + 1] && s[k].0 != -1;
      assert 0 <= k < k + 1 < |s|;
    }
  }

  /** The scan on the sorted copy finds a duplicate exactly when the original list has one, and
      what it finds occurs at two positions of the original list. */
  lemma {:induction false} SortedScanFindsDuplicates(s: seq<(int, int)>)
    ensures var sorted := SortPairs(s);
            var k := FirstAdjacentDuplicate(sorted, 0);
            (k == -1 <==> !HasDuplicate(s)) &&
            (k != -1 ==> sorted[k].0 != -1 &&
                         exists i, j :: 0 <= i < j < |s| && s[i] == sorted[k] && s[j] == sorted[k])
  {
    var sorted := SortPairs(s);
    DuplicatePreserved(s, sorted);
    SortedDuplicateAdjacent(sorted);
    var k := FirstAdjacentDuplicate(sorted, 0);
    if k != -1 {
      TwoPositions(sorted, sorted[k]);
      TwoPositions(s, sorted[k]);
    }
  }
}
