/** The computation IR of nnet3: matrices, sub-matrix views, index tables and the command list
    (src/nnet3/nnet-computation.cc), plus the pure sub-matrix queries `IsWholeMatrix` and the
    sub-matrix naming used when a computation is printed. */
module Ir {
  import opened Decimal

  /** Row and column extents of one allocation. Index 0 of `matrices` is the reserved empty
      matrix (0, 0). */
  datatype MatrixInfo = MatrixInfo(numRows: int, numCols: int)

  /** A rectangular view into matrix `matrixIndex`. Index 0 of `submatrices` is the reserved empty
      view. */
  datatype SubMatrixInfo =
    SubMatrixInfo(matrixIndex: int, rowOffset: int, numRows: int, colOffset: int, numCols: int)

  const EmptySubMatrix := SubMatrixInfo(0, 0, 0, 0, 0)

  datatype CommandType =
    | ResizeMatrixZeroed | ResizeMatrixUndefined | ResizeMatrixEmpty
    | Propagate | StoreStats | Backprop
    | MatrixCopy | MatrixAdd
    | AddRows | CopyRows
    | AddRowsMulti | AddToRowsMulti | CopyRowsMulti | CopyToRowsMulti
    | AddRowRanges
    | NoOperation | NoOperationMarker

  /** One command. Operand meaning by opcode:
      resize: arg1 matrix;
      Propagate: arg1 component, arg2 precomputed-indexes index, arg3 input, arg4 output;
      StoreStats: arg1 component, arg2 sub-matrix;
      Backprop: arg1 node, arg2 component, arg3 precomputed-indexes index, arg4 input value,
        arg5 output value, arg6 output derivative, arg7 input derivative;
      copy/add: arg1 destination, arg2 source;
      AddRows/CopyRows: arg1 destination, arg2 source, arg3 `indexes` entry;
      *-multi: arg1 sub-matrix, arg2 `indexes_multi` entry;
      AddRowRanges: arg1 destination, arg2 source, arg3 `indexes_ranges` entry. */
  datatype Command = Command(
    commandType: CommandType,
    arg1: int, arg2: int, arg3: int, arg4: int, arg5: int, arg6: int, arg7: int)

  /** One entry of `input_output_info`: a network node bound to its value matrix and its
      derivative matrix (0 when there is none). */
  datatype IoEntry = IoEntry(node: int, valueMatrix: int, derivMatrix: int)

  /** A computation as the analysis reads it. `inputOutputInfo` lists the entries of the source's
      hash map in its iteration order; `numPrecomputedIndexes` is the size of
      `component_precomputed_indexes`, whose contents the analysis never reads. */
  datatype Computation = Computation(
    matrices: seq<MatrixInfo>,
    submatrices: seq<SubMatrixInfo>,
    commands: seq<Command>,
    indexes: seq<seq<int>>,
    indexesMulti: seq<seq<(int, int)>>,
    indexesRanges: seq<seq<(int, int)>>,
    inputOutputInfo: seq<IoEntry>,
    numPrecomputedIndexes: int,
    forwardComputationEnd: int)

  /** The sub-matrix `index` and the matrix it refers to both exist. */
  predicate ViewResolves(comp: Computation, index: int) {
    0 <= index < |comp.submatrices| &&
    0 <= comp.submatrices[index].matrixIndex < |comp.matrices|
  }

  /** `NnetComputation::IsWholeMatrix`: the view starts at row and column 0 and spans its whole
      matrix. Asserts `0 < index < |sub_matrices|`. */
  predicate IsWholeMatrix(comp: Computation, index: int): (r: bool)
    requires 0 < index && ViewResolves(comp, index)
    ensures var s := comp.submatrices[index];
            r ==> SameElements(s, comp.matrices[s.matrixIndex])
    ensures var s := comp.submatrices[index];
            s.numRows > 0 && s.numCols > 0 && SameElements(s, comp.matrices[s.matrixIndex]) ==> r
  {
    var s := comp.submatrices[index];
    var m := comp.matrices[s.matrixIndex];
    WholeIffSameElements(s, m);
    s.rowOffset == 0 && s.colOffset == 0 && s.numRows == m.numRows && s.numCols == m.numCols
  }

  /** Element (row, col) lies inside matrix `m`. */
  predicate InMatrix(m: MatrixInfo, row: int, col: int) {
    0 <= row < m.numRows && 0 <= col < m.numCols
  }

  /** Element (row, col) of the underlying matrix lies inside view `s`. */
  predicate InView(s: SubMatrixInfo, row: int, col: int) {
    s.rowOffset <= row < s.rowOffset + s.numRows && s.colOffset <= col < s.colOffset + s.numCols
  }

  /** View `s` covers exactly the elements of matrix `m`. */
  ghost predicate SameElements(s: SubMatrixInfo, m: MatrixInfo) {
    forall row, col :: InMatrix(m, row, col) <==> InView(s, row, col)
  }

  /** A view at row and column 0 with its matrix's size covers exactly the matrix's elements,
      and a non-empty view covering exactly them is such a view. */
  lemma WholeIffSameElements(s: SubMatrixInfo, m: MatrixInfo)
    ensures s.rowOffset == 0 && s.colOffset == 0 && s.numRows == m.numRows && s.numCols == m.numCols ==>
              SameElements(s, m)
    ensures s.numRows > 0 && s.numCols > 0 && SameElements(s, m) ==>
              s.rowOffset == 0 && s.colOffset == 0 && s.numRows == m.numRows && s.numCols == m.numCols
  {
    if s.numRows > 0 && s.numCols > 0 && SameElements(s, m) {
      SameElementsWhole(s, m);
    }
  }

  /** A non-empty view that covers exactly its matrix's elements starts at row and column 0 and
      has the matrix's size. */
  lemma SameElementsWhole(s: SubMatrixInfo, m: MatrixInfo)
    requires s.numRows > 0 && s.numCols > 0 && SameElements(s, m)
    ensures s.rowOffset == 0 && s.colOffset == 0 && s.numRows == m.numRows && s.numCols == m.numCols
  {
    var lastRow, lastCol := s.rowOffset + s.numRows - 1, s.colOffset + s.numCols - 1;
    assert InView(s, s.rowOffset, s.colOffset) && InView(s, lastRow, lastCol);
    assert InMatrix(m, s.rowOffset, s.colOffset) && InMatrix(m, lastRow, lastCol);
    assert InMatrix(m, 0, 0) && InMatrix(m, m.numRows - 1, m.numCols - 1);
    assert InView(s, 0, 0) && InView(s, m.numRows - 1, m.numCols - 1);
  }

  /** The name `GetSubmatrixStrings` gives sub-matrix `index`: "[]" for the reserved view, "m<k>"
      for a whole matrix, and otherwise "m<k>(r0:r1, c0:c1)" with inclusive last row and column. */
  function SubmatrixName(comp: Computation, index: int): string
    requires ViewResolves(comp, index)
  {
    if index == 0 then "[]"
    else
      var s := comp.submatrices[index];
      if IsWholeMatrix(comp, index) then "m" + IntToString(s.matrixIndex)
      else "m" + IntToString(s.matrixIndex) + RangeSuffix(s)
  }

  /** "(r0:r1, c0:c1)", the inclusive row and column range of a partial view. */
  function RangeSuffix(s: SubMatrixInfo): (r: string)
    ensures |r| >= 2 && r[0] == '(' && r[|r| - 1] == ')'
  {
    "(" + IntToString(s.rowOffset) + ":" + IntToString(s.rowOffset + s.numRows - 1) + ", " +
    IntToString(s.colOffset) + ":" + IntToString(s.colOffset + s.numCols - 1) + ")"
  }

  /** `GetSubmatrixStrings`: one name per sub-matrix, built in a loop. The network argument of the
      source is not consulted and is left out. */
  method GetSubmatrixStrings(comp: Computation) returns (names: seq<string>)
    requires |comp.submatrices| > 0
    requires forall i :: 0 <= i < |comp.submatrices| ==> ViewResolves(comp, i)
    ensures |names| == |comp.submatrices|
    ensures names[0] == "[]"
    ensures forall i :: 0 <= i < |names| ==> names[i] == SubmatrixName(comp, i)
  {
    names := seq(|comp.submatrices|, _ => "");
    names := names[0 := "[]"];
    for i := 1 to |comp.submatrices|
      invariant |names| == |comp.submatrices|
      invariant forall k :: 0 <= k < i ==> names[k] == SubmatrixName(comp, k)
    {
      names := names[i := SubmatrixName(comp, i)];
    }
  }

  /** A whole-matrix view is named by its matrix alone, and the matrix index can be read back
      from the name. */
  lemma WholeViewNameNamesMatrix(comp: Computation, index: int)
    requires 0 < index && ViewResolves(comp, index) && IsWholeMatrix(comp, index)
    ensures var name := SubmatrixName(comp, index);
            name[0] == 'm' && '(' !in name && ParseInt(name[1..]) == comp.submatrices[index].matrixIndex
  {
    var k := comp.submatrices[index].matrixIndex;
    var name := SubmatrixName(comp, index);
    IntRoundTrip(k);
    assert name[1..] == IntToString(k);
  }

  /** A partial view's name carries a parenthesised range right after its matrix, so it never
      coincides with a whole-matrix name. */
  lemma PartialViewNameHasRange(comp: Computation, index: int)
    requires 0 < index && ViewResolves(comp, index) && !IsWholeMatrix(comp, index)
    ensures var name := SubmatrixName(comp, index);
            var k := IntToString(comp.submatrices[index].matrixIndex);
            name[0] == 'm' && name[1..1 + |k|] == k && name[1 + |k|] == '(' && name[|name| - 1] == ')'
  {
    var s := comp.submatrices[index];
    var k := IntToString(s.matrixIndex);
    var suffix := RangeSuffix(s);
    assert SubmatrixName(comp, index) == "m" + k + suffix;
    assert ("m" + k + suffix)[1 + |k|] == suffix[0];
  }

  /** Whole-matrix names and partial-view names never collide. */
  lemma WholeAndPartialNamesDiffer(comp: Computation, i: int, j: int)
    requires 0 < i && ViewResolves(comp, i) && IsWholeMatrix(comp, i)
    requires 0 < j && ViewResolves(comp, j) && !IsWholeMatrix(comp, j)
    ensures SubmatrixName(comp, i) != SubmatrixName(comp, j)
  {
    WholeViewNameNamesMatrix(comp, i);
    PartialViewNameHasRange(comp, j);
    var k := IntToString(comp.submatrices[j].matrixIndex);
    assert '(' in SubmatrixName(comp, j) by {
      assert SubmatrixName(comp, j)[1 + |k|] == '(';
    }
  }
}
