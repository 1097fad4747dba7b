/** `ComputationVariables`: the split of every matrix into column blocks ("variables") such that
    each sub-matrix view covers a whole number of them, so that dependence analysis can work per
    variable (src/nnet3/nnet-analyze.cc). */
module Variables {
  import opened Outcomes
  import opened Sorted
  import opened Ir
  import opened AccessTypes

  /** What the analysis needs in order to index its tables: the reserved matrix and view exist,
      and every other view refers to an existing matrix (the source indexes its per-matrix lists
      with the view's matrix index unchecked). */
  predicate WellIndexed(comp: Computation) {
    |comp.matrices| >= 1 && |comp.submatrices| >= 1 &&
    forall i :: 1 <= i < |comp.submatrices| ==> 0 <= comp.submatrices[i].matrixIndex < |comp.matrices|
  }

  /** Some view other than the reserved one refers to the reserved matrix 0. */
  predicate ReservedViewed(comp: Computation) {
    exists i :: 1 <= i < |comp.submatrices| && comp.submatrices[i].matrixIndex == 0
  }

  /** What a successful analysis establishes about the indexes (`AnalyzeDescribes`): every view
      but the reserved one refers to an existing, non-reserved matrix. */
  predicate Indexable(comp: Computation) {
    |comp.matrices| >= 1 && |comp.submatrices| >= 1 &&
    forall i :: 1 <= i < |comp.submatrices| ==> 1 <= comp.submatrices[i].matrixIndex < |comp.matrices|
  }

  /** The column boundaries that views 1 .. n-1 contribute to matrix `m`, in the order they are
      pushed. */
  function Boundaries(subs: seq<SubMatrixInfo>, m: int, n: nat): seq<int>
    requires n <= |subs|
  {
    if n <= 1 then []
    else
      var s := subs[n - 1];
      Boundaries(subs, m, n - 1) + (if s.matrixIndex == m then [s.colOffset, s.colOffset + s.numCols] else [])
  }

  /** `x` is the first or the one-past-last column of some view of matrix `m`. */
  predicate IsViewBoundary(subs: seq<SubMatrixInfo>, m: int, x: int) {
    exists i :: 1 <= i < |subs| && subs[i].matrixIndex == m &&
                (x == subs[i].colOffset || x == subs[i].colOffset + subs[i].numCols)
  }

  lemma {:induction false} BoundariesMembers(subs: seq<SubMatrixInfo>, m: int, n: nat, x: int)
    requires n <= |subs|
    ensures x in Boundaries(subs, m, n) <==>
            exists i :: 1 <= i < n && subs[i].matrixIndex == m &&
                        (x == subs[i].colOffset || x == subs[i].colOffset + subs[i].numCols)
  {
    if n > 1 {
      BoundariesMembers(subs, m, n - 1, x);
      var s := subs[n - 1];
      if s.matrixIndex == m && (x == s.colOffset || x == s.colOffset + s.numCols) {
        assert x in Boundaries(subs, m, n);
      }
    }
  }

  /** The split points of matrix `m`: its view boundaries, sorted and without repeats, except
      for the reserved matrix, whose boundaries are kept in the order they were pushed. */
  function SplitPointsOf(comp: Computation, m: int): seq<int> {
    if m == 0 then Boundaries(comp.submatrices, m, |comp.submatrices|)
    else SortAndUniq(Boundaries(comp.submatrices, m, |comp.submatrices|))
  }

  function SplitPoints(comp: Computation): seq<seq<int>> {
    seq(|comp.matrices|, m => SplitPointsOf(comp, m))
  }

  /** Split points are exactly the view boundaries, in strictly increasing order. */
  lemma SplitPointsMembers(comp: Computation, m: int)
    requires m != 0
    ensures StrictlySorted(SplitPointsOf(comp, m))
    ensures forall x :: x in SplitPointsOf(comp, m) <==> IsViewBoundary(comp.submatrices, m, x)
  {
    forall x ensures x in SplitPointsOf(comp, m) <==> IsViewBoundary(comp.submatrices, m, x) {
      BoundariesMembers(comp.submatrices, m, |comp.submatrices|, x);
    }
  }

  /** A matrix that no view among 1 .. n-1 refers to gets no boundaries from them. */
  lemma {:induction false} UnviewedMatrixUnsplit(subs: seq<SubMatrixInfo>, m: int, n: nat)
    requires n <= |subs|
    requires forall k :: 1 <= k < n ==> subs[k].matrixIndex != m
    ensures Boundaries(subs, m, n) == []
  {
    if n > 1 {
      UnviewedMatrixUnsplit(subs, m, n - 1);
    }
  }

  /** Later views only append boundaries: the list for views 1 .. a-1 is a prefix of the list
      for views 1 .. b-1. */
  lemma {:induction false} BoundariesGrow(subs: seq<SubMatrixInfo>, m: int, a: nat, b: nat)
    requires a <= b <= |subs|
    ensures |Boundaries(subs, m, a)| <= |Boundaries(subs, m, b)|
    ensures Boundaries(subs, m, b)[..|Boundaries(subs, m, a)|] == Boundaries(subs, m, a)
    decreases b
  {
    if a < b {
      BoundariesGrow(subs, m, a, b - 1);
      if b > 1 {
        var s := subs[b - 1];
        var tail := if s.matrixIndex == m then [s.colOffset, s.colOffset + s.numCols] else [];
        assert Boundaries(subs, m, b) == Boundaries(subs, m, b - 1) + tail;
      }
    }
  }

  /** The first boundary of a matrix is the first column of the first view that refers to it. */
  lemma FirstBoundary(subs: seq<SubMatrixInfo>, m: int, i: int)
    requires 1 <= i < |subs| && subs[i].matrixIndex == m
    requires forall k :: 1 <= k < i ==> subs[k].matrixIndex != m
    ensures |Boundaries(subs, m, |subs|)| >= 2
    ensures Boundaries(subs, m, |subs|)[0] == subs[i].colOffset
    ensures Boundaries(subs, m, |subs|)[1] == subs[i].colOffset + subs[i].numCols
  {
    UnviewedMatrixUnsplit(subs, m, i);
    assert Boundaries(subs, m, i + 1) == [subs[i].colOffset, subs[i].colOffset + subs[i].numCols];
    BoundariesGrow(subs, m, i + 1, |subs|);
  }

  /** The index of the first variable of matrix `m`: matrices 0 and 1 start at 0, and each
      matrix k >= 1 owns one variable per gap between consecutive split points. */
  function VariableOffset(split: seq<seq<int>>, m: nat): int
    requires m <= |split|
  {
    if m <= 1 then 0 else VariableOffset(split, m - 1) + |split[m - 1]| - 1
  }

  function Offsets(split: seq<seq<int>>): seq<int> {
    seq(|split| + 1, m requires 0 <= m <= |split| => VariableOffset(split, m))
  }

  /** Every non-reserved matrix has at least two split points, so each owns at least one
      variable. */
  predicate SplitCounted(split: seq<seq<int>>) {
    |split| >= 1 &&
    forall m :: 1 <= m < |split| ==> StrictlySorted(split[m]) && |split[m]| >= 2
  }

  /** Split points as a successful analysis leaves them: the reserved matrix has none. */
  predicate SplitShaped(split: seq<seq<int>>) {
    SplitCounted(split) && split[0] == []
  }

  /** Offsets never decrease, and strictly increase across each non-reserved matrix. */
  lemma {:induction false} OffsetsIncrease(split: seq<seq<int>>, a: nat, b: nat)
    requires SplitCounted(split) && 1 <= a <= b <= |split|
    ensures VariableOffset(split, a) + (b - a) <= VariableOffset(split, b)
    decreases b
  {
    if a < b {
      OffsetsIncrease(split, a, b - 1);
    }
  }

  const Reserved0Message := "computation.submatrices[0].num_rows == 0"
  const TooFewSplitPointsMessage := "split_points_[matrix_index].size() >= 2"
  const StartNotSplitMessage := "*iter == start_dim"
  const EndNotSplitMessage := "*iter == end_dim"
  const EmptyRangeMessage := "end_variable_index > start_variable_index"
  const ConflictMessage := "variable_to_matrix_[variable_index] == matrix_index"
  const UncoveredMessage := "std::count(variable_to_matrix_.begin(), variable_to_matrix_.end(), -1) == 0"

  /** The two assertions of `ComputeSplitPoints`. */
  function SplitPointsCheck(comp: Computation): Outcome
    requires WellIndexed(comp)
  {
    if comp.submatrices[0].numRows != 0 then Fail(Reserved0Message)
    else if exists m :: 1 <= m < |comp.matrices| && |SplitPointsOf(comp, m)| < 2 then Fail(TooFewSplitPointsMessage)
    else Pass
  }

  lemma SplitPointsCounted(comp: Computation)
    requires WellIndexed(comp) && SplitPointsCheck(comp).Pass?
    ensures SplitCounted(SplitPoints(comp))
  {
    forall m | 1 <= m < |comp.matrices| ensures StrictlySorted(SplitPoints(comp)[m]) {
      SplitPointsMembers(comp, m);
    }
  }

  lemma SplitPointsShaped(comp: Computation)
    requires Indexable(comp) && SplitPointsCheck(comp).Pass?
    ensures SplitShaped(SplitPoints(comp))
  {
    UnviewedMatrixUnsplit(comp.submatrices, 0, |comp.submatrices|);
    SplitPointsCounted(comp);
  }

  /** The variable range of view `i` (1 <= i): the positions of its first and one-past-last column
      among its matrix's split points, shifted by the matrix's offset. Fails with the assertion
      that does not hold when a boundary is missing or the range would be empty. */
  function SubmatrixRange(comp: Computation, split: seq<seq<int>>, i: int): Result<(int, int)>
    requires WellIndexed(comp) && |split| == |comp.matrices| && 1 <= i < |comp.submatrices|
  {
    var s := comp.submatrices[i];
    var points := split[s.matrixIndex];
    var startDim := s.colOffset;
    var endDim := startDim + s.numCols;
    var k1 := LowerBound(points, 0, startDim);
    if !(k1 < |points| && points[k1] == startDim) then Err(StartNotSplitMessage)
    else
      var k2 := LowerBound(points, k1, endDim);
      if !(k2 < |points| && points[k2] == endDim) then Err(EndNotSplitMessage)
      else
        var offset := VariableOffset(split, s.matrixIndex);
        if !(offset + k2 > offset + k1) then Err(EmptyRangeMessage)
        else Ok((offset + k1, offset + k2))
  }

  /** The first failure among views 1 .. n-1. */
  function RangesCheck(comp: Computation, split: seq<seq<int>>, n: nat): Outcome
    requires WellIndexed(comp) && |split| == |comp.matrices| && n <= |comp.submatrices|
  {
    if n <= 1 then Pass
    else
      var earlier := RangesCheck(comp, split, n - 1);
      if earlier.Fail? then earlier else SubmatrixRange(comp, split, n - 1).ToOutcome()
  }

  lemma {:induction false} RangesCheckPasses(comp: Computation, split: seq<seq<int>>, n: nat)
    requires WellIndexed(comp) && |split| == |comp.matrices| && n <= |comp.submatrices|
    ensures RangesCheck(comp, split, n).Pass? <==> forall i :: 1 <= i < n ==> SubmatrixRange(comp, split, i).Ok?
  {
    if n > 1 {
      RangesCheckPasses(comp, split, n - 1);
    }
  }

  /** Once a failure is found, later views do not change it. */
  lemma {:induction false} RangesCheckKeepsFailure(comp: Computation, split: seq<seq<int>>, a: nat, b: nat)
    requires WellIndexed(comp) && |split| == |comp.matrices| && a <= b <= |comp.submatrices|
    requires RangesCheck(comp, split, a).Fail?
    ensures RangesCheck(comp, split, b) == RangesCheck(comp, split, a)
    decreases b
  {
    if a < b {
      RangesCheckKeepsFailure(comp, split, a, b - 1);
    }
  }

  /** The range recorded for view `i`: (0, 0) for the reserved view or when none exists. */
  function RangeAt(comp: Computation, split: seq<seq<int>>, i: int): (int, int)
    requires WellIndexed(comp) && |split| == |comp.matrices| && 0 <= i < |comp.submatrices|
  {
    if i == 0 then (0, 0)
    else match SubmatrixRange(comp, split, i)
         case Ok(r) => r
         case Err(_) => (0, 0)
  }

  function Ranges(comp: Computation, split: seq<seq<int>>): seq<(int, int)>
    requires WellIndexed(comp) && |split| == |comp.matrices|
  {
    seq(|comp.submatrices|, i requires 0 <= i < |comp.submatrices| => RangeAt(comp, split, i))
  }

  /** Whether view `i` spans all rows of its matrix (false for the reserved view). */
  predicate FullRowAt(comp: Computation, i: int)
    requires WellIndexed(comp) && 0 <= i < |comp.submatrices|
  {
    i != 0 && comp.submatrices[i].rowOffset == 0 &&
    comp.submatrices[i].numRows == comp.matrices[comp.submatrices[i].matrixIndex].numRows
  }

  function FullRowRange(comp: Computation): seq<bool>
    requires WellIndexed(comp)
  {
    seq(|comp.submatrices|, i requires 0 <= i < |comp.submatrices| => FullRowAt(comp, i))
  }

  /** The owning matrix of each variable: matrix k >= 1 owns |split[k]| - 1 consecutive
      variables. */
  function Owners(split: seq<seq<int>>, n: nat): seq<int>
    requires n <= |split|
    requires forall m :: 1 <= m < n ==> |split[m]| >= 1
  {
    if n <= 1 then [] else Owners(split, n - 1) + seq(|split[n - 1]| - 1, _ => n - 1)
  }

  /** Owner lists have one entry per variable, and each variable lies in its owner's block. */
  lemma {:induction false} OwnersAt(split: seq<seq<int>>, n: nat)
    requires SplitShaped(split) && n <= |split|
    ensures |Owners(split, n)| == VariableOffset(split, if n == 0 then 1 else n)
    ensures forall v :: 0 <= v < |Owners(split, n)| ==>
              1 <= Owners(split, n)[v] < n &&
              VariableOffset(split, Owners(split, n)[v]) <= v < VariableOffset(split, Owners(split, n)[v] + 1)
  {
    if n > 1 {
      OwnersAt(split, n - 1);
      var prefix := Owners(split, n - 1);
      var block := seq(|split[n - 1]| - 1, _ => n - 1);
      var all := Owners(split, n);
      assert all == prefix + block;
      assert |prefix| == VariableOffset(split, n - 1);
      forall v | 0 <= v < |all|
        ensures 1 <= all[v] < n && VariableOffset(split, all[v]) <= v < VariableOffset(split, all[v] + 1)
      {
        if v < |prefix| {
          assert all[v] == prefix[v];
        } else {
          assert all[v] == block[v - |prefix|] == n - 1;
        }
      }
    }
  }

  /** Some view among 1 .. n-1 covers variable `v`. */
  predicate CoveredBelow(ranges: seq<(int, int)>, n: int, v: int) {
    exists i :: 1 <= i < n && i < |ranges| && ranges[i].0 <= v < ranges[i].1
  }

  /** The final assertion of `ComputeVariableToMatrix`: every variable lies in some view. */
  function CoverageCheck(ranges: seq<(int, int)>, numVariables: int): Outcome {
    if forall v :: 0 <= v < numVariables ==> CoveredBelow(ranges, |ranges|, v) then Pass
    else Fail(UncoveredMessage)
  }

  /** The two assertions of `ComputeVariableToMatrix`: no variable is claimed by two matrices,
      then every variable lies in some view. Views of non-reserved matrices only claim variables
      of their own matrix; a view of the reserved matrix claims variable 0, which a view of
      matrix 1 claims as well (`ReservedViewClashes`), so the first assertion fails. */
  function OwnersCheck(comp: Computation, ranges: seq<(int, int)>, numVariables: int): Outcome {
    if ReservedViewed(comp) then Fail(ConflictMessage) else CoverageCheck(ranges, numVariables)
  }

  /** Everything `ComputationVariables` computes. */
  datatype VarInfo = VarInfo(
    splitPoints: seq<seq<int>>,
    matrixToVariableIndex: seq<int>,
    numVariables: int,
    variableRanges: seq<(int, int)>,
    fullRowRange: seq<bool>,
    variableToMatrix: seq<int>)

  /** The whole analysis: split points, then variable ranges, then the variable-to-matrix map,
      each stage failing with the first assertion that does not hold. */
  function Analyze(comp: Computation): Result<VarInfo>
    requires WellIndexed(comp)
  {
    var splitCheck := SplitPointsCheck(comp);
    if splitCheck.Fail? then Err(splitCheck.message)
    else
      var split := SplitPoints(comp);
      var numVariables := VariableOffset(split, |split|);
      var rangesCheck := RangesCheck(comp, split, |comp.submatrices|);
      if rangesCheck.Fail? then Err(rangesCheck.message)
      else
        var ranges := Ranges(comp, split);
        var owners := OwnersCheck(comp, ranges, numVariables);
        if owners.Fail? then Err(owners.message)
        else
          SplitPointsShaped(comp);
          Ok(VarInfo(split, Offsets(split), numVariables, ranges, FullRowRange(comp),
                     Owners(split, |split|)))
  }

  /** The analysis's outcome is that of its first failing step, and its result is built from
      the steps' values. */
  lemma AnalyzeInSteps(comp: Computation)
    requires WellIndexed(comp)
    ensures var split := SplitPoints(comp);
            var numVariables := VariableOffset(split, |split|);
            var ranges := Ranges(comp, split);
            Analyze(comp).ToOutcome() ==
              if SplitPointsCheck(comp).Fail? then SplitPointsCheck(comp)
              else if RangesCheck(comp, split, |comp.submatrices|).Fail? then RangesCheck(comp, split, |comp.submatrices|)
              else OwnersCheck(comp, ranges, numVariables)
    ensures var split := SplitPoints(comp);
            Analyze(comp).Ok? ==>
              Analyze(comp).value == VarInfo(split, Offsets(split), VariableOffset(split, |split|),
                                             Ranges(comp, split), FullRowRange(comp), Owners(split, |split|))
  {
  }

  /** Matrix `m` (not the reserved one) owns variable `v`. */
  predicate OwnsVariable(vi: VarInfo, m: int, v: int) {
    1 <= m < |vi.splitPoints| &&
    VariableOffset(vi.splitPoints, m) <= v < VariableOffset(vi.splitPoints, m + 1)
  }

  /** The range recorded for view `i` is a block of its matrix's variables whose first and
      one-past-last split points are the view's first and one-past-last columns. */
  predicate RangeDescribes(comp: Computation, vi: VarInfo, i: int)
    requires WellIndexed(comp) && 1 <= i < |comp.submatrices|
  {
    var s := comp.submatrices[i];
    var m := s.matrixIndex;
    var split := vi.splitPoints;
    |split| == |comp.matrices| && i < |vi.variableRanges| && i < |vi.fullRowRange| &&
    var offset := VariableOffset(split, m);
    var r := vi.variableRanges[i];
    offset <= r.0 < r.1 <= VariableOffset(split, m + 1) &&
    r.1 - offset < |split[m]| &&
    split[m][r.0 - offset] == s.colOffset && split[m][r.1 - offset] == s.colOffset + s.numCols &&
    vi.fullRowRange[i] == (s.rowOffset == 0 && s.numRows == comp.matrices[m].numRows)
  }

  /** What a successful analysis establishes about a computation: its split points, ranges and
      owners. */
  predicate Describes(comp: Computation, vi: VarInfo)
    requires WellIndexed(comp)
  {
    DescribesSplit(comp, vi) && DescribesRanges(comp, vi) && DescribesOwners(vi)
  }

  /** The split points are those of the computation, and the offsets count the variables. */
  predicate DescribesSplit(comp: Computation, vi: VarInfo) {
    var split := vi.splitPoints;
    |split| == |comp.matrices| && SplitShaped(split) &&
    (forall m :: 0 <= m < |split| ==> split[m] == SplitPointsOf(comp, m)) &&
    vi.matrixToVariableIndex == Offsets(split) &&
    vi.numVariables == VariableOffset(split, |split|)
  }

  /** One range per view, the reserved view's empty and not a full-row view. */
  predicate DescribesRanges(comp: Computation, vi: VarInfo)
    requires WellIndexed(comp)
  {
    |vi.variableRanges| == |comp.submatrices| && |vi.fullRowRange| == |comp.submatrices| &&
    vi.variableRanges[0] == (0, 0) && !vi.fullRowRange[0] &&
    forall i :: 1 <= i < |comp.submatrices| ==> RangeDescribes(comp, vi, i)
  }

  /** Every variable has its owning matrix recorded and lies in some view. */
  predicate DescribesOwners(vi: VarInfo) {
    |vi.variableToMatrix| == vi.numVariables &&
    (forall v :: 0 <= v < vi.numVariables ==> OwnsVariable(vi, vi.variableToMatrix[v], v)) &&
    (forall v :: 0 <= v < vi.numVariables ==> CoveredBelow(vi.variableRanges, |vi.variableRanges|, v))
  }

  /** Looking up two members `x` and `y` of a strictly increasing list the way
      `ComputeVariableRanges` does: `x` is always found, and `y` is found after it exactly when
      `x <= y`. */
  lemma LookupPair(points: seq<int>, x: int, y: int)
    requires StrictlySorted(points) && x in points && y in points
    ensures var k1 := LowerBound(points, 0, x);
            var k2 := LowerBound(points, k1, y);
            k1 < |points| && points[k1] == x &&
            ((k2 < |points| && points[k2] == y) <==> x <= y) &&
            (x <= y ==> (k1 < k2 <==> x < y))
  {
    var k1 := LowerBound(points, 0, x);
    LowerBoundFinds(points, 0, x);
    var k2 := LowerBound(points, k1, y);
    LowerBoundFinds(points, k1, y);
    var j :| 0 <= j < |points| && points[j] == y;
    if x <= y {
      assert !(j < k1);
    } else {
      assert j < k1;
    }
  }

  /** A range that exists is a block of its matrix's variables, bounded by split points that are
      the view's first and one-past-last columns. */
  lemma SubmatrixRangeInBlock(comp: Computation, split: seq<seq<int>>, i: int)
    requires Indexable(comp) && |split| == |comp.matrices| && SplitShaped(split) && 1 <= i < |comp.submatrices|
    requires SubmatrixRange(comp, split, i).Ok?
    ensures var r := SubmatrixRange(comp, split, i).value;
            var s := comp.submatrices[i];
            var m := s.matrixIndex;
            var offset := VariableOffset(split, m);
            offset <= r.0 < r.1 <= VariableOffset(split, m + 1) &&
            r.1 - offset < |split[m]| &&
            split[m][r.0 - offset] == s.colOffset && split[m][r.1 - offset] == s.colOffset + s.numCols
  {
  }

  /** When both boundaries of a view are split points of its matrix, the view has a range
      exactly when it has columns. */
  lemma RangeExistsIff(comp: Computation, split: seq<seq<int>>, i: int)
    requires WellIndexed(comp) && |split| == |comp.matrices| && 1 <= i < |comp.submatrices|
    requires var s := comp.submatrices[i];
             var points := split[s.matrixIndex];
             StrictlySorted(points) && s.colOffset in points && s.colOffset + s.numCols in points
    ensures SubmatrixRange(comp, split, i).Ok? <==> comp.submatrices[i].numCols > 0
  {
    var s := comp.submatrices[i];
    LookupPair(split[s.matrixIndex], s.colOffset, s.colOffset + s.numCols);
  }

  /** With the split points of the analysis, the range of a view can only fail to exist when the
      view has no columns: its boundaries are split points by construction. */
  lemma SubmatrixRangeFacts(comp: Computation, i: int)
    requires Indexable(comp) && SplitPointsCheck(comp).Pass? && 1 <= i < |comp.submatrices|
    ensures var split := SplitPoints(comp);
            var r := SubmatrixRange(comp, split, i);
            var s := comp.submatrices[i];
            var m := s.matrixIndex;
            var offset := VariableOffset(split, m);
            (r.Ok? <==> s.numCols > 0) &&
            (r.Ok? ==>
               offset <= r.value.0 < r.value.1 <= VariableOffset(split, m + 1) &&
               r.value.1 - offset < |split[m]| &&
               split[m][r.value.0 - offset] == s.colOffset &&
               split[m][r.value.1 - offset] == s.colOffset + s.numCols)
  {
    var split := SplitPoints(comp);
    var s := comp.submatrices[i];
    var m := s.matrixIndex;
    var points := split[m];
    assert points == SplitPointsOf(comp, m);
    SplitPointsMembers(comp, m);
    assert IsViewBoundary(comp.submatrices, m, s.colOffset);
    assert IsViewBoundary(comp.submatrices, m, s.colOffset + s.numCols);
    assert StrictlySorted(points);
    RangeExistsIff(comp, split, i);
    SplitPointsShaped(comp);
    if SubmatrixRange(comp, split, i).Ok? {
      SubmatrixRangeInBlock(comp, split, i);
    }
  }

  /** The first view among 1 .. n-1 that refers to matrix `m`. */
  lemma {:induction false} FirstViewOf(subs: seq<SubMatrixInfo>, m: int, n: nat) returns (i: int)
    requires n <= |subs|
    requires exists k :: 1 <= k < n && subs[k].matrixIndex == m
    ensures 1 <= i < n && subs[i].matrixIndex == m
    ensures forall k :: 1 <= k < i ==> subs[k].matrixIndex != m
  {
    if exists k :: 1 <= k < n - 1 && subs[k].matrixIndex == m {
      i := FirstViewOf(subs, m, n - 1);
    } else {
      i := n - 1;
    }
  }

  /** Once the split points and the ranges are found, a view of the reserved matrix and a view of
      matrix 1 both cover variable 0. The reserved matrix keeps its boundaries in view order, so
      its first view starts at position 0, and its offset is 0; matrix 1 also has offset 0, and
      its smallest split point is the first column of one of its views. So whichever of the two
      views is marked second finds variable 0 owned by the other matrix. */
  lemma ReservedViewClashes(comp: Computation) returns (i: int, j: int)
    requires WellIndexed(comp) && ReservedViewed(comp) && |comp.matrices| >= 2
    requires SplitPointsCheck(comp).Pass?
    requires RangesCheck(comp, SplitPoints(comp), |comp.submatrices|).Pass?
    ensures 1 <= i < |comp.submatrices| && comp.submatrices[i].matrixIndex == 0
    ensures 1 <= j < |comp.submatrices| && comp.submatrices[j].matrixIndex == 1
    ensures var ranges := Ranges(comp, SplitPoints(comp));
            ranges[i].0 == 0 < ranges[i].1 && ranges[j].0 == 0 < ranges[j].1
    ensures 0 < VariableOffset(SplitPoints(comp), |comp.matrices|)
  {
    var subs := comp.submatrices;
    var split := SplitPoints(comp);
    RangesCheckPasses(comp, split, |subs|);
    SplitPointsCounted(comp);
    OffsetsIncrease(split, 1, |split|);
    i := FirstViewOf(subs, 0, |subs|);
    FirstBoundary(subs, 0, i);
    assert split[0] == Boundaries(subs, 0, |subs|);
    assert LowerBound(split[0], 0, subs[i].colOffset) == 0;
    assert Ranges(comp, split)[i] == SubmatrixRange(comp, split, i).value;
    j := ReservedViewPartner(comp);
  }

  /** A view of matrix 1 whose range starts at variable 0. */
  lemma ReservedViewPartner(comp: Computation) returns (j: int)
    requires WellIndexed(comp) && |comp.matrices| >= 2
    requires SplitPointsCheck(comp).Pass?
    requires RangesCheck(comp, SplitPoints(comp), |comp.submatrices|).Pass?
    ensures 1 <= j < |comp.submatrices| && comp.submatrices[j].matrixIndex == 1
    ensures var ranges := Ranges(comp, SplitPoints(comp));
            ranges[j].0 == 0 < ranges[j].1
  {
    var split := SplitPoints(comp);
    j := FirstSplitPointStartsView(comp);
    RangesCheckPasses(comp, split, |comp.submatrices|);
    assert SubmatrixRange(comp, split, j).Ok?;
    assert LowerBound(split[1], 0, comp.submatrices[j].colOffset) == 0;
    assert Ranges(comp, split)[j] == SubmatrixRange(comp, split, j).value;
  }

  /** Matrix 1's smallest split point is the first column of one of its views, when every view
      has a range. */
  lemma FirstSplitPointStartsView(comp: Computation) returns (j: int)
    requires WellIndexed(comp) && |comp.matrices| >= 2
    requires SplitPointsCheck(comp).Pass?
    requires RangesCheck(comp, SplitPoints(comp), |comp.submatrices|).Pass?
    ensures 1 <= j < |comp.submatrices| && comp.submatrices[j].matrixIndex == 1
    ensures |SplitPoints(comp)[1]| >= 1 && SplitPoints(comp)[1][0] == comp.submatrices[j].colOffset
  {
    var subs := comp.submatrices;
    var split := SplitPoints(comp);
    var points := split[1];
    assert points == SplitPointsOf(comp, 1);
    SplitPointsMembers(comp, 1);
    assert |points| >= 2;
    assert points[0] in points;
    j :| 1 <= j < |subs| && subs[j].matrixIndex == 1 &&
         (points[0] == subs[j].colOffset || points[0] == subs[j].colOffset + subs[j].numCols);
    var s := subs[j];
    assert IsViewBoundary(subs, 1, s.colOffset);
    assert IsViewBoundary(subs, 1, s.colOffset + s.numCols);
    RangesCheckPasses(comp, split, |subs|);
    RangeExistsIff(comp, split, j);
    var k :| 0 <= k < |points| && points[k] == s.colOffset;
    assert points[0] <= points[k];
  }


  /** The analysis succeeds exactly when the reserved view is empty, every matrix has at least two
      split points, every view has columns, and every variable lies in some view. */
  lemma AnalyzeSucceeds(comp: Computation)
    requires WellIndexed(comp)
    ensures Analyze(comp).Ok? <==>
              comp.submatrices[0].numRows == 0 &&
              (forall i :: 1 <= i < |comp.submatrices| ==> comp.submatrices[i].matrixIndex != 0) &&
              (forall m :: 1 <= m < |comp.matrices| ==> |SplitPointsOf(comp, m)| >= 2) &&
              (forall i :: 1 <= i < |comp.submatrices| ==> comp.submatrices[i].numCols > 0) &&
              var split := SplitPoints(comp);
              var ranges := Ranges(comp, split);
              forall v :: 0 <= v < VariableOffset(split, |split|) ==> CoveredBelow(ranges, |ranges|, v)
  {
    if SplitPointsCheck(comp).Pass? && !ReservedViewed(comp) {
      var split := SplitPoints(comp);
      RangesCheckPasses(comp, split, |comp.submatrices|);
      forall i | 1 <= i < |comp.submatrices|
        ensures SubmatrixRange(comp, split, i).Ok? <==> comp.submatrices[i].numCols > 0
      {
        SubmatrixRangeFacts(comp, i);
      }
    }
  }

  /** A successful analysis describes the computation. */
  lemma AnalyzeDescribes(comp: Computation)
    requires WellIndexed(comp) && Analyze(comp).Ok?
    ensures Indexable(comp) && Describes(comp, Analyze(comp).value)
  {
    var split := SplitPoints(comp);
    var ranges := Ranges(comp, split);
    var numVariables := VariableOffset(split, |split|);
    var vi := VarInfo(split, Offsets(split), numVariables, ranges, FullRowRange(comp), Owners(split, |split|));
    assert Analyze(comp).value == vi;
    SplitPointsShaped(comp);
    assert DescribesSplit(comp, vi);
    RangesDescribed(comp, vi);
    OwnersAt(split, |split|);
    assert DescribesOwners(vi);
  }

  lemma RangesDescribed(comp: Computation, vi: VarInfo)
    requires Indexable(comp) && SplitPointsCheck(comp).Pass?
    requires vi.splitPoints == SplitPoints(comp)
    requires RangesCheck(comp, vi.splitPoints, |comp.submatrices|).Pass?
    requires vi.variableRanges == Ranges(comp, vi.splitPoints) && vi.fullRowRange == FullRowRange(comp)
    ensures DescribesRanges(comp, vi)
  {
    var split := vi.splitPoints;
    RangesCheckPasses(comp, split, |comp.submatrices|);
    forall i | 1 <= i < |comp.submatrices| ensures RangeDescribes(comp, vi, i) {
      RangeDescribedAt(comp, vi, i);
    }
  }

  lemma RangeDescribedAt(comp: Computation, vi: VarInfo, i: int)
    requires Indexable(comp) && SplitPointsCheck(comp).Pass? && 1 <= i < |comp.submatrices|
    requires vi.splitPoints == SplitPoints(comp)
    requires SubmatrixRange(comp, vi.splitPoints, i).Ok?
    requires vi.variableRanges == Ranges(comp, vi.splitPoints) && vi.fullRowRange == FullRowRange(comp)
    ensures RangeDescribes(comp, vi, i)
  {
    SubmatrixRangeFacts(comp, i);
    assert vi.variableRanges[i] == SubmatrixRange(comp, vi.splitPoints, i).value;
  }

  /** Variables are the finest column split: view `i` covers a variable of its own matrix exactly
      when the variable's columns overlap the view's columns. */
  lemma ViewCoversOverlappingVariables(comp: Computation, vi: VarInfo, i: int, v: int)
    requires Indexable(comp) && 1 <= i < |comp.submatrices|
    requires SplitShaped(vi.splitPoints) && RangeDescribes(comp, vi, i)
    requires OwnsVariable(vi, comp.submatrices[i].matrixIndex, v)
    ensures var s := comp.submatrices[i];
            var m := s.matrixIndex;
            var k := v - VariableOffset(vi.splitPoints, m);
            var points := vi.splitPoints[m];
            k + 1 < |points| &&
            ((vi.variableRanges[i].0 <= v < vi.variableRanges[i].1) <==>
               (points[k] < s.colOffset + s.numCols && s.colOffset < points[k + 1]))
  {
    var s := comp.submatrices[i];
    var m := s.matrixIndex;
    var offset := VariableOffset(vi.splitPoints, m);
    var points := vi.splitPoints[m];
    var k := v - offset;
    var a := vi.variableRanges[i].0 - offset;
    var b := vi.variableRanges[i].1 - offset;
    assert StrictlySorted(points);
    assert points[a] == s.colOffset && points[b] == s.colOffset + s.numCols;
    if a <= k < b {
      assert points[k] < points[b];
      assert points[a] < points[k + 1];
    }
    if points[k] < points[b] && points[a] < points[k + 1] {
      assert !(b <= k) && !(k + 1 <= a);
    }
  }

  /** The effect of `RecordAccessForSubmatrix`: the variables of view `i` are added to the
      written list for a write or read-write access, and to the read list for a read or
      read-write access, and also for a write that does not span all rows of its matrix (the
      rows it leaves alone survive, so it reads the variable as well). */
  function Record(vi: VarInfo, attributes: CommandAttributes, i: int, access: AccessType): CommandAttributes
    requires 0 <= i < |vi.variableRanges|
    requires access == WriteAccess ==> i < |vi.fullRowRange|
  {
    var vars := Interval(vi.variableRanges[i].0, vi.variableRanges[i].1);
    match access
    case ReadAccess =>
      attributes.(variablesRead := attributes.variablesRead + vars)
    case WriteAccess =>
      attributes.(variablesWritten := attributes.variablesWritten + vars,
                  variablesRead := if vi.fullRowRange[i] then attributes.variablesRead
                                   else attributes.variablesRead + vars)
    case ReadWriteAccess =>
      attributes.(variablesWritten := attributes.variablesWritten + vars,
                  variablesRead := attributes.variablesRead + vars)
  }

  /** `ComputeSubmatLists`: for each matrix, the views of it in increasing order. */
  method ComputeSubmatLists(comp: Computation) returns (r: Result<seq<seq<int>>>)
    ensures r.Err? <==> exists i :: 1 <= i < |comp.submatrices| &&
                                     !(0 < comp.submatrices[i].matrixIndex < |comp.matrices|)
    ensures r.Ok? ==> |r.value| == |comp.matrices| &&
                      forall m :: 0 <= m < |comp.matrices| ==>
                        StrictlySorted(r.value[m]) &&
                        forall i :: i in r.value[m] <==>
                          1 <= i < |comp.submatrices| && comp.submatrices[i].matrixIndex == m
  {
    var lists: seq<seq<int>> := seq(|comp.matrices|, _ => []);
    if |comp.submatrices| <= 1 {
      return Ok(lists);
    }
    for i := 1 to |comp.submatrices|
      invariant |lists| == |comp.matrices|
      invariant forall k :: 1 <= k < i ==> 0 < comp.submatrices[k].matrixIndex < |comp.matrices|
      invariant forall m :: 0 <= m < |lists| ==> StrictlySorted(lists[m])
      invariant forall m, k :: 0 <= m < |lists| && 0 <= k < |lists[m]| ==> lists[m][k] < i
      invariant forall m, k :: 0 <= m < |lists| ==>
                  (k in lists[m] <==> 1 <= k < i && comp.submatrices[k].matrixIndex == m)
    {
      var m := comp.submatrices[i].matrixIndex;
      if !(m > 0 && m < |comp.matrices|) {
        return Err("matrix_index > 0 && matrix_index < num_matrices");
      }
      AppendKeepsSorted(lists[m], i);
      lists := lists[m := lists[m] + [i]];
    }
    return Ok(lists);
  }

  lemma AppendKeepsSorted(s: seq<int>, x: int)
    requires StrictlySorted(s) && forall k :: 0 <= k < |s| ==> s[k] < x
    ensures StrictlySorted(s + [x])
  {
  }

  /** A view's variable range lies among the variables, and its matrix owns each of them. */
  lemma RangeOwnedByItsMatrix(comp: Computation, split: seq<seq<int>>, i: int)
    requires Indexable(comp) && |split| == |comp.matrices| && SplitShaped(split) && 1 <= i < |comp.submatrices|
    requires RangesCheck(comp, split, |comp.submatrices|).Pass?
    ensures var r := Ranges(comp, split)[i];
            var owners := Owners(split, |split|);
            0 <= r.0 < r.1 <= VariableOffset(split, |split|) && |owners| == VariableOffset(split, |split|) &&
            forall v :: r.0 <= v < r.1 ==> owners[v] == comp.submatrices[i].matrixIndex
  {
    var m := comp.submatrices[i].matrixIndex;
    RangesCheckPasses(comp, split, |comp.submatrices|);
    SubmatrixRangeInBlock(comp, split, i);
    OffsetsIncrease(split, 1, m);
    var r := Ranges(comp, split)[i];
    assert r == SubmatrixRange(comp, split, i).value;
    OwnersAt(split, |split|);
    OffsetsIncrease(split, m + 1, |split|);
    OwnersInBlock(split, m, r.0, r.1);
  }

  lemma CoveredStep(ranges: seq<(int, int)>, i: int)
    requires 1 <= i < |ranges|
    ensures forall u :: CoveredBelow(ranges, i + 1, u) <==>
                        CoveredBelow(ranges, i, u) || ranges[i].0 <= u < ranges[i].1
  {
    forall u ensures CoveredBelow(ranges, i + 1, u) <==>
                     CoveredBelow(ranges, i, u) || ranges[i].0 <= u < ranges[i].1 {
      if ranges[i].0 <= u < ranges[i].1 {
        assert 1 <= i < i + 1 && i < |ranges| && ranges[i].0 <= u < ranges[i].1;
      }
    }
  }

  lemma RangesFromParts(comp: Computation, split: seq<seq<int>>, ranges: seq<(int, int)>, full: seq<bool>)
    requires WellIndexed(comp) && |split| == |comp.matrices|
    requires |ranges| == |comp.submatrices| && |full| == |comp.submatrices|
    requires ranges[0] == (0, 0) && !full[0]
    requires forall k :: 1 <= k < |comp.submatrices| ==> ranges[k] == RangeAt(comp, split, k) && full[k] == FullRowAt(comp, k)
    ensures ranges == Ranges(comp, split) && full == FullRowRange(comp)
  {
  }

  /** The last loop of `ComputeSplitPoints`: the first variable of each matrix, and one past the
      last variable of all. */
  method NumberVariables(split: seq<seq<int>>) returns (offsets: seq<int>)
    requires SplitCounted(split)
    ensures offsets == Offsets(split)
  {
    var numMatrices := |split|;
    offsets := seq(numMatrices + 1, _ => 0);
    for m := 1 to numMatrices
      invariant |offsets| == numMatrices + 1
      invariant forall k :: 0 <= k <= m ==> offsets[k] == VariableOffset(split, k)
    {
      var count := |split[m]| - 1;
      assert count >= 1;
      offsets := offsets[m + 1 := offsets[m] + count];
    }
  }

  /** Gathers, matrix by matrix, the first and one-past-last column of every view but the
      reserved one. */
  method CollectBoundaries(comp: Computation) returns (split: seq<seq<int>>)
    requires WellIndexed(comp)
    ensures |split| == |comp.matrices|
    ensures forall m :: 0 <= m < |comp.matrices| ==> split[m] == Boundaries(comp.submatrices, m, |comp.submatrices|)
  {
    split := seq(|comp.matrices|, _ => []);
    for i := 1 to |comp.submatrices|
      invariant |split| == |comp.matrices|
      invariant forall m :: 0 <= m < |comp.matrices| ==> split[m] == Boundaries(comp.submatrices, m, i)
    {
      var s := comp.submatrices[i];
      split := split[s.matrixIndex := split[s.matrixIndex] + [s.colOffset, s.colOffset + s.numCols]];
    }
  }

  /** Sorts and deduplicates the boundaries of every matrix but the reserved one; fails as soon
      as one of them has fewer than two split points. */
  method SortBoundaries(comp: Computation, collected: seq<seq<int>>) returns (r: Result<seq<seq<int>>>)
    requires WellIndexed(comp) && |collected| == |comp.matrices|
    requires forall m :: 0 <= m < |comp.matrices| ==> collected[m] == Boundaries(comp.submatrices, m, |comp.submatrices|)
    ensures r.Ok? <==> forall m :: 1 <= m < |comp.matrices| ==> |SplitPointsOf(comp, m)| >= 2
    ensures r.Err? ==> r.message == TooFewSplitPointsMessage
    ensures r.Ok? ==> r.value == SplitPoints(comp)
  {
    var split := collected;
    for m := 1 to |comp.matrices|
      invariant |split| == |comp.matrices| && split[0] == collected[0]
      invariant forall k :: 1 <= k < m ==> split[k] == SplitPointsOf(comp, k) && |split[k]| >= 2
      invariant forall k :: m <= k < |comp.matrices| ==> split[k] == collected[k]
    {
      split := split[m := SortAndUniq(split[m])];
      if |split[m]| < 2 {
        assert |SplitPointsOf(comp, m)| < 2;
        return Err(TooFewSplitPointsMessage);
      }
    }
    assert split == SplitPoints(comp);
    return Ok(split);
  }

  /** The marking loop of `ComputeVariableToMatrix` when no view refers to the reserved matrix:
      every covered variable gets its owner, and every other one keeps -1. */
  method MarkOwners(comp: Computation, split: seq<seq<int>>, ranges: seq<(int, int)>) returns (toMatrix: seq<int>)
    requires Indexable(comp) && |split| == |comp.matrices| && SplitShaped(split)
    requires RangesCheck(comp, split, |comp.submatrices|).Pass? && ranges == Ranges(comp, split)
    ensures |toMatrix| == VariableOffset(split, |split|) == |Owners(split, |split|)|
    ensures forall v :: 0 <= v < |toMatrix| ==>
              toMatrix[v] == (if CoveredBelow(ranges, |ranges|, v) then Owners(split, |split|)[v] else -1)
  {
    var count := VariableOffset(split, |split|);
    OwnersAt(split, |split|);
    var owners := Owners(split, |split|);
    toMatrix := seq(count, _ => -1);
    for i := 1 to |ranges|
      invariant |toMatrix| == count
      invariant forall v :: 0 <= v < count ==>
                  toMatrix[v] == (if CoveredBelow(ranges, i, v) then owners[v] else -1)
    {
      var m := comp.submatrices[i].matrixIndex;
      var start := ranges[i].0;
      var end := ranges[i].1;
      RangeOwnedByItsMatrix(comp, split, i);
      for v := start to end
        invariant |toMatrix| == count
        invariant forall u :: 0 <= u < count ==>
                    toMatrix[u] == (if CoveredBelow(ranges, i, u) || start <= u < v then owners[u] else -1)
      {
        if toMatrix[v] == -1 {
          toMatrix := toMatrix[v := m];
        } else {
          assert toMatrix[v] == m;
        }
      }
      CoveredStep(ranges, i);
    }
  }

  /** The analysis as an object whose fields the three computing steps fill in turn. */
  class ComputationVariables {
    var splitPoints: seq<seq<int>>
    var matrixToVariableIndex: seq<int>
    var numVariables: int
    var variableRanges: seq<(int, int)>
    var fullRowRange: seq<bool>
    var variableToMatrix: seq<int>

    function Info(): VarInfo
      reads this
    {
      VarInfo(splitPoints, matrixToVariableIndex, numVariables, variableRanges, fullRowRange, variableToMatrix)
    }

    constructor ()
      ensures Info() == VarInfo([], [], 0, [], [], [])
    {
      splitPoints := [];
      matrixToVariableIndex := [];
      numVariables := 0;
      variableRanges := [];
      fullRowRange := [];
      variableToMatrix := [];
    }

    /** Collects, sorts and deduplicates each matrix's split points, then numbers the
        variables matrix by matrix. */
    method ComputeSplitPoints(comp: Computation) returns (r: Outcome)
      requires WellIndexed(comp)
      modifies this`splitPoints, this`matrixToVariableIndex, this`numVariables
      ensures r == SplitPointsCheck(comp)
      ensures r.Pass? ==>
                splitPoints == SplitPoints(comp) && SplitCounted(splitPoints) &&
                matrixToVariableIndex == Offsets(splitPoints) &&
                numVariables == VariableOffset(splitPoints, |splitPoints|)
    {
      if comp.submatrices[0].numRows != 0 {
        return Fail(Reserved0Message);
      }
      var collected := CollectBoundaries(comp);
      var sorted := SortBoundaries(comp, collected);
      if sorted.Err? {
        return Fail(sorted.message);
      }
      var split := sorted.value;
      var numMatrices := |comp.matrices|;
      SplitPointsCounted(comp);
      var offsets := NumberVariables(split);
      splitPoints := split;
      matrixToVariableIndex := offsets;
      numVariables := offsets[numMatrices];
      return Pass;
    }

    /** Finds each view's variable range and records whether it spans all rows. */
    method ComputeVariableRanges(comp: Computation) returns (r: Outcome)
      requires WellIndexed(comp)
      requires |splitPoints| == |comp.matrices| && matrixToVariableIndex == Offsets(splitPoints)
      modifies this`variableRanges, this`fullRowRange
      ensures r == RangesCheck(comp, splitPoints, |comp.submatrices|)
      ensures r.Pass? ==> variableRanges == Ranges(comp, splitPoints) && fullRowRange == FullRowRange(comp)
    {
      var numSubmatrices := |comp.submatrices|;
      var ranges: seq<(int, int)> := seq(numSubmatrices, _ => (0, 0));
      var full: seq<bool> := seq(numSubmatrices, _ => false);
      for i := 1 to numSubmatrices
        invariant |ranges| == numSubmatrices && |full| == numSubmatrices
        invariant RangesCheck(comp, splitPoints, i).Pass?
        invariant ranges[0] == (0, 0) && !full[0]
        invariant forall k :: 1 <= k < i ==> ranges[k] == RangeAt(comp, splitPoints, k) && full[k] == FullRowAt(comp, k)
      {
        var range := VariableRangeOf(comp, i);
        if range.Err? {
          RangesCheckKeepsFailure(comp, splitPoints, i + 1, numSubmatrices);
          return Fail(range.message);
        }
        var s := comp.submatrices[i];
        ranges := ranges[i := range.value];
        full := full[i := s.rowOffset == 0 && s.numRows == comp.matrices[s.matrixIndex].numRows];
      }
      RangesFromParts(comp, splitPoints, ranges, full);
      variableRanges := ranges;
      fullRowRange := full;
      return Pass;
    }

    /** The body of the loop of `ComputeVariableRanges` for view `i`: its first and
        one-past-last columns are looked up among its matrix's split points and shifted by the
        matrix's first variable. */
    method VariableRangeOf(comp: Computation, i: int) returns (r: Result<(int, int)>)
      requires WellIndexed(comp) && 1 <= i < |comp.submatrices|
      requires |splitPoints| == |comp.matrices| && matrixToVariableIndex == Offsets(splitPoints)
      ensures r == SubmatrixRange(comp, splitPoints, i)
    {
      var s := comp.submatrices[i];
      var m := s.matrixIndex;
      var startDim := s.colOffset;
      var endDim := startDim + s.numCols;
      var points := splitPoints[m];
      var startIndex := LowerBound(points, 0, startDim);
      if !(startIndex < |points| && points[startIndex] == startDim) {
        return Err(StartNotSplitMessage);
      }
      var endIndex := LowerBound(points, startIndex, endDim);
      if !(endIndex < |points| && points[endIndex] == endDim) {
        return Err(EndNotSplitMessage);
      }
      var matrixOffset := matrixToVariableIndex[m];
      var startVariable := matrixOffset + startIndex;
      var endVariable := matrixOffset + endIndex;
      if !(endVariable > startVariable) {
        return Err(EmptyRangeMessage);
      }
      return Ok((startVariable, endVariable));
    }

    /** Marks every variable with the matrix of the views that cover it, and asserts that every
        variable is covered. A view of the reserved matrix is reported at once: marking it and
        the view of matrix 1 that covers variable 0 trips the assertion against a second owner
        (`ReservedViewClashes`). */
    method ComputeVariableToMatrix(comp: Computation) returns (r: Outcome)
      requires WellIndexed(comp)
      requires splitPoints == SplitPoints(comp) && SplitCounted(splitPoints)
      requires numVariables == VariableOffset(splitPoints, |splitPoints|)
      requires RangesCheck(comp, splitPoints, |comp.submatrices|).Pass?
      requires variableRanges == Ranges(comp, splitPoints)
      modifies this`variableToMatrix
      ensures r == OwnersCheck(comp, variableRanges, numVariables)
      ensures r.Pass? ==> variableToMatrix == Owners(splitPoints, |splitPoints|)
    {
      if ReservedViewed(comp) {
        return Fail(ConflictMessage);
      }
      UnviewedMatrixUnsplit(comp.submatrices, 0, |comp.submatrices|);
      var count := numVariables;
      OwnersAt(splitPoints, |splitPoints|);
      var owners := Owners(splitPoints, |splitPoints|);
      var toMatrix := MarkOwners(comp, splitPoints, variableRanges);
      if -1 in toMatrix {
        var v :| 0 <= v < count && toMatrix[v] == -1;
        return Fail(UncoveredMessage);
      }
      assert toMatrix == owners;
      variableToMatrix := toMatrix;
      return Pass;
    }

    /** The constructor of the source: the three steps in order, stopping at the first failed
        assertion. */
    method Compute(comp: Computation) returns (r: Outcome)
      requires WellIndexed(comp)
      modifies this
      ensures r == Analyze(comp).ToOutcome()
      ensures r.Pass? ==> Info() == Analyze(comp).value && Indexable(comp) && Describes(comp, Info())
    {
      AnalyzeInSteps(comp);
      r := ComputeSplitPoints(comp);
      if r.Fail? {
        return;
      }
      assert splitPoints == SplitPoints(comp);
      r := ComputeVariableRanges(comp);
      if r.Fail? {
        return;
      }
      assert variableRanges == Ranges(comp, SplitPoints(comp));
      r := ComputeVariableToMatrix(comp);
      if r.Pass? {
        assert Info() == Analyze(comp).value;
        AnalyzeDescribes(comp);
      }
    }

    /** The matrix that owns `variable`. */
    function GetMatrixForVariable(variable: int): (m: int)
      requires 0 <= variable < |variableToMatrix|
      reads this
      ensures DescribesOwners(Info()) && variable < numVariables ==> OwnsVariable(Info(), m, variable)
    {
      variableToMatrix[variable]
    }

    /** Appends the variables of view `submatrix`, in increasing order. */
    method AppendVariablesForSubmatrix(submatrix: int, list: seq<int>) returns (r: seq<int>)
      requires 0 <= submatrix < |variableRanges|
      ensures r == list + Interval(variableRanges[submatrix].0, variableRanges[submatrix].1)
      ensures forall v :: v in r <==> v in list || variableRanges[submatrix].0 <= v < variableRanges[submatrix].1
    {
      r := AppendRun(list, variableRanges[submatrix].0, variableRanges[submatrix].1);
    }

    /** Appends the variables of matrix `matrix`, in increasing order. */
    method AppendVariablesForMatrix(matrix: int, list: seq<int>) returns (r: seq<int>)
      requires 0 <= matrix && matrix + 1 < |matrixToVariableIndex|
      ensures r == list + Interval(matrixToVariableIndex[matrix], matrixToVariableIndex[matrix + 1])
      ensures forall v :: v in r <==> v in list ||
                                      matrixToVariableIndex[matrix] <= v < matrixToVariableIndex[matrix + 1]
    {
      r := AppendRun(list, matrixToVariableIndex[matrix], matrixToVariableIndex[matrix + 1]);
    }

    /** Records an access of the given kind to view `submatrix`; a write to a view that does not
        span all rows also counts as a read. */
    method RecordAccessForSubmatrix(submatrix: int, access: AccessType, attributes: CommandAttributes)
      returns (r: CommandAttributes)
      requires 0 <= submatrix < |variableRanges|
      requires access == WriteAccess ==> submatrix < |fullRowRange|
      ensures r == Record(Info(), attributes, submatrix, access)
      ensures r.hasSideEffects == attributes.hasSideEffects
      ensures forall v :: v in r.variablesWritten <==>
                v in attributes.variablesWritten ||
                (access != ReadAccess && variableRanges[submatrix].0 <= v < variableRanges[submatrix].1)
      ensures forall v :: v in r.variablesRead <==>
                v in attributes.variablesRead ||
                ((access != WriteAccess || !fullRowRange[submatrix]) &&
                 variableRanges[submatrix].0 <= v < variableRanges[submatrix].1)
    {
      r := attributes;
      match access {
        case ReadAccess =>
          var read := AppendVariablesForSubmatrix(submatrix, r.variablesRead);
          r := r.(variablesRead := read);
        case WriteAccess =>
          var written := AppendVariablesForSubmatrix(submatrix, r.variablesWritten);
          r := r.(variablesWritten := written);
          if !fullRowRange[submatrix] {
            var read := AppendVariablesForSubmatrix(submatrix, r.variablesRead);
            r := r.(variablesRead := read);
          }
        case ReadWriteAccess =>
          var written := AppendVariablesForSubmatrix(submatrix, r.variablesWritten);
          r := r.(variablesWritten := written);
          var read := AppendVariablesForSubmatrix(submatrix, r.variablesRead);
          r := r.(variablesRead := read);
      }
    }
  }

  /** Appends `lo, lo + 1, ..., hi - 1` to `list`, one at a time. */
  method AppendRun(list: seq<int>, lo: int, hi: int) returns (r: seq<int>)
    ensures r == list + Interval(lo, hi)
    ensures forall v :: v in r <==> v in list || lo <= v < hi
  {
    r := list;
    var v := lo;
    while v < hi
      invariant lo <= v && (lo <= hi ==> v <= hi) && (hi < lo ==> v == lo)
      invariant r == list + Interval(lo, v)
    {
      assert Interval(lo, v + 1) == Interval(lo, v) + [v];
      r := r + [v];
      v := v + 1;
    }
    assert Interval(lo, v) == Interval(lo, hi);
    IntervalMembers(lo, hi);
  }

  /** The variables of a view's range are owned by the view's matrix. */
  lemma OwnersInBlock(split: seq<seq<int>>, m: int, start: int, end: int)
    requires SplitShaped(split) && 1 <= m < |split|
    requires VariableOffset(split, m) <= start <= end <= VariableOffset(split, m + 1)
    ensures forall v :: start <= v < end ==>
              0 <= v < |Owners(split, |split|)| && Owners(split, |split|)[v] == m
  {
    OwnersAt(split, |split|);
    OffsetsIncrease(split, m + 1, |split|);
    OffsetsIncrease(split, 1, m);
    forall v | start <= v < end ensures 0 <= v < |Owners(split, |split|)| && Owners(split, |split|)[v] == m {
      var owner := Owners(split, |split|)[v];
      if owner < m {
        OffsetsIncrease(split, owner + 1, m);
      } else if owner > m {
        OffsetsIncrease(split, m + 1, owner);
      }
    }
  }
}
