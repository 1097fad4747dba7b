/** `NnetComputation` as a mutable object: the two append operations that grow its matrix and
    sub-matrix lists (src/nnet3/nnet-computation.cc). */
module IrBuilder {
  import opened Ir

  class NnetComputation {
    var matrices: seq<MatrixInfo>
    var subMatrices: seq<SubMatrixInfo>
    var commands: seq<Command>
    var indexes: seq<seq<int>>
    var indexesMulti: seq<seq<(int, int)>>
    var indexesRanges: seq<seq<(int, int)>>
    var inputOutputInfo: seq<IoEntry>
    var numPrecomputedIndexes: int
    var forwardComputationEnd: int

    /** The computation as a value. */
    function View(): Computation
      reads this
    {
      Computation(matrices, subMatrices, commands, indexes, indexesMulti, indexesRanges,
                  inputOutputInfo, numPrecomputedIndexes, forwardComputationEnd)
    }

    /** The shape the two append operations keep: the reserved empty matrix and empty view sit at
        index 0 as soon as anything exists, and there are at least as many views as matrices.
        Other views may be any views, partial rows and row offsets included. */
    predicate Valid()
      reads this
    {
      (|matrices| == 0 <==> |subMatrices| == 0) &&
      (|matrices| > 0 ==> matrices[0] == MatrixInfo(0, 0) && subMatrices[0] == EmptySubMatrix) &&
      |subMatrices| >= |matrices|
    }

    constructor ()
      ensures Valid()
      ensures View() == Computation([], [], [], [], [], [], [], 0, 0)
    {
      matrices := [];
      subMatrices := [];
      commands := [];
      indexes := [];
      indexesMulti := [];
      indexesRanges := [];
      inputOutputInfo := [];
      numPrecomputedIndexes := 0;
      forwardComputationEnd := 0;
    }

    /** Appends a matrix and a view covering all of it, creating the reserved entries first when
        the computation is empty, and returns the index of the new view. */
    method NewMatrix(numRows: int, numCols: int) returns (submatrixIndex: int)
      requires Valid()
      requires numRows > 0 && numCols > 0
      modifies this`matrices, this`subMatrices
      ensures Valid()
      ensures var baseMatrices := if old(matrices) == [] then [MatrixInfo(0, 0)] else old(matrices);
              var baseViews := if old(matrices) == [] then [EmptySubMatrix] else old(subMatrices);
              matrices == baseMatrices + [MatrixInfo(numRows, numCols)] &&
              subMatrices == baseViews + [SubMatrixInfo(|baseMatrices|, 0, numRows, 0, numCols)] &&
              submatrixIndex == |baseViews|
      ensures 0 < submatrixIndex && ViewResolves(View(), submatrixIndex) && IsWholeMatrix(View(), submatrixIndex)
    {
      if |matrices| == 0 {
        matrices := matrices + [MatrixInfo(0, 0)];
        subMatrices := subMatrices + [EmptySubMatrix];
      }
      var matrixIndex := |matrices|;
      submatrixIndex := |subMatrices|;
      matrices := matrices + [MatrixInfo(numRows, numCols)];
      subMatrices := subMatrices + [SubMatrixInfo(matrixIndex, 0, numRows, 0, numCols)];
    }

    /** Appends a view of columns [dimOffset, dimOffset + dim) and all rows of matrix
        `baseMatrix`, and returns its index. The new view is a whole-matrix view exactly when it
        starts at column 0 and spans every column. */
    method NewSubMatrix(baseMatrix: int, dimOffset: int, dim: int) returns (ans: int)
      requires Valid()
      requires 0 <= baseMatrix < |matrices|
      requires dimOffset >= 0 && dimOffset + dim <= matrices[baseMatrix].numCols
      modifies this`subMatrices
      ensures Valid()
      ensures ans == |old(subMatrices)|
      ensures subMatrices == old(subMatrices) +
                [SubMatrixInfo(baseMatrix, 0, matrices[baseMatrix].numRows, dimOffset, dim)]
      ensures 0 < ans && ViewResolves(View(), ans)
      ensures IsWholeMatrix(View(), ans) <==> dimOffset == 0 && dim == matrices[baseMatrix].numCols
    {
      var numRows := matrices[baseMatrix].numRows;
      ans := |subMatrices|;
      assert ans >= |matrices|;
      subMatrices := subMatrices + [SubMatrixInfo(baseMatrix, 0, numRows, dimOffset, dim)];
    }
  }
}
