/** `ComputationChecker::CheckComputationIndexes` (src/nnet3/nnet-analyze.cc:581-807): every
    index a command holds is in range and the shapes it combines agree. Each command type has
    its own check, which stops at the first violated condition with the source's message; a
    `...WellFormed` predicate states the same conditions as one conjunction. */
module IndexCheck {
  import opened Outcomes
  import opened Decimal
  import opened Ir
  import opened NnetOracle
  import opened PairOrder
  import Attributes

  function Rows(comp: Computation, i: int): int
    requires 0 <= i < |comp.submatrices|
  {
    comp.submatrices[i].numRows
  }

  function Cols(comp: Computation, i: int): int
    requires 0 <= i < |comp.submatrices|
  {
    comp.submatrices[i].numCols
  }

  /** A view other than the reserved empty one. */
  predicate IsView(comp: Computation, i: int) {
    1 <= i < |comp.submatrices|
  }

  /** A view, or the reserved empty one standing for "not supplied". */
  predicate IsViewOrEmpty(comp: Computation, i: int) {
    0 <= i < |comp.submatrices|
  }

  // ---- resizes -------------------------------------------------------------------------

  predicate ResizeWellFormed(comp: Computation, c: Command) {
    1 <= c.arg1 < |comp.matrices|
  }

  function CheckResize(comp: Computation, c: Command): (r: Outcome)
    ensures r.Pass? <==> ResizeWellFormed(comp, c)
  {
    if c.arg1 < 1 || c.arg1 >= |comp.matrices| then Fail("matrix index out of range.") else Pass
  }

  // ---- propagate -----------------------------------------------------------------------

  /** A propagation names a component, a precomputed-indexes slot (zero for simple
      components), an input view (possibly the empty one, but not for a simple component) and an
      output view, whose widths are the component's input and output dimensions; a simple
      component keeps the number of rows, and input and output coincide only for components that
      propagate in place. */
  predicate PropagateWellFormed(nnet: Nnet, comp: Computation, c: Command) {
    0 <= c.arg1 < |nnet.components| &&
    var component := nnet.components[c.arg1];
    var props := component.properties;
    0 <= c.arg2 <= comp.numPrecomputedIndexes && (c.arg2 != 0 ==> SimpleComponent !in props) &&
    IsViewOrEmpty(comp, c.arg3) && (c.arg3 == 0 ==> SimpleComponent in props) && IsView(comp, c.arg4) &&
    Cols(comp, c.arg3) == component.inputDim && Cols(comp, c.arg4) == component.outputDim &&
    (SimpleComponent in props ==> Rows(comp, c.arg3) == Rows(comp, c.arg4)) &&
    (c.arg3 == c.arg4 ==> PropagateInPlace in props)
  }

  function CheckPropagate(nnet: Nnet, comp: Computation, c: Command): (r: Outcome)
    ensures r.Pass? <==> PropagateWellFormed(nnet, comp, c)
  {
    var ns := |comp.submatrices|;
    if c.arg1 < 0 || c.arg1 >= |nnet.components| then Fail("Component index out of range")
    else
      var component := nnet.components[c.arg1];
      var props := component.properties;
      if c.arg2 < 0 || c.arg2 > comp.numPrecomputedIndexes then Fail("Precomputed-indexes index out of range")
      else if c.arg2 != 0 && SimpleComponent in props then Fail("Precomputed-indexes index nonzero for simple component")
      else if c.arg3 < 0 || c.arg3 >= ns || (c.arg3 == 0 && SimpleComponent !in props) || c.arg4 < 1 || c.arg4 >= ns
      then Fail("Sub-matrix indexes out of range.")
      else if Cols(comp, c.arg3) != component.inputDim then Fail("Input-dim mismatch.")
      // the source prints the input message for the output check as well
      else if Cols(comp, c.arg4) != component.outputDim then Fail("Input-dim mismatch.")
      else if SimpleComponent in props && Rows(comp, c.arg3) != Rows(comp, c.arg4)
      then Fail("Num-rows mismatch for simple component.")
      else if PropagateInPlace !in props && c.arg3 == c.arg4
      then Fail("In-place propagation not supported for this component")
      else Pass
  }

  // ---- store-stats ---------------------------------------------------------------------

  /** Storing statistics names a component that stores statistics and a view as wide as its
      output. */
  predicate StoreStatsWellFormed(nnet: Nnet, comp: Computation, c: Command) {
    0 <= c.arg1 < |nnet.components| && StoresStats in nnet.components[c.arg1].properties &&
    IsView(comp, c.arg2) && Cols(comp, c.arg2) == nnet.components[c.arg1].outputDim
  }

  /** The store-stats case ending with a `break`, as the backprop case's operands evidently
      were not meant for it. */
  function CheckStoreStats(nnet: Nnet, comp: Computation, c: Command): (r: Outcome)
    ensures r.Pass? <==> StoreStatsWellFormed(nnet, comp, c)
  {
    if c.arg1 < 0 || c.arg1 >= |nnet.components| then Fail("Component index out of range")
    else
      var component := nnet.components[c.arg1];
      if StoresStats !in component.properties then Fail("StoreStats called on component that does not do it.")
      else if c.arg2 < 1 || c.arg2 >= |comp.submatrices| then Fail("Invalid sub-matrix index in StoreStats")
      else if Cols(comp, c.arg2) != component.outputDim then Fail("Dimension mismatch in StoreStats")
      else Pass
  }

  /** The store-stats case as written: with no `break` it goes on into the backprop checks. */
  function CheckStoreStatsAsWritten(nnet: Nnet, comp: Computation, c: Command): Outcome {
    match CheckStoreStats(nnet, comp, c)
    case Fail(m) => Fail(m)
    case Pass => CheckBackpropAsWritten(nnet, c)
  }

  // ---- backprop ------------------------------------------------------------------------

  /** The "has no effect" test: a backprop that computes no input derivative is pointless unless
      the component is updated. */
  predicate NoEffect(props: set<ComponentProperty>, c: Command) {
    c.arg7 == 0 && UpdatableComponent !in props
  }

  /** The same test as written, with a logical `&&` between the property bits and the
      updatable flag: it fires only for a component with no properties at all. */
  predicate NoEffectAsWritten(props: set<ComponentProperty>, c: Command) {
    c.arg7 == 0 && props == {}
  }

  /** The output rows test: a supplied output value must have as many rows as the output
      derivative. */
  predicate OutputRowsMismatch(comp: Computation, c: Command)
    requires IsViewOrEmpty(comp, c.arg5) && IsViewOrEmpty(comp, c.arg6)
  {
    c.arg5 != 0 && Rows(comp, c.arg5) != Rows(comp, c.arg6)
  }

  /** The same test as written, with `||`: it fires for every supplied output value, and for
      an absent one whenever the output derivative has rows. */
  predicate OutputRowsMismatchAsWritten(comp: Computation, c: Command)
    requires IsViewOrEmpty(comp, c.arg5) && IsViewOrEmpty(comp, c.arg6)
  {
    c.arg5 != 0 || Rows(comp, c.arg5) != Rows(comp, c.arg6)
  }

  /** A backprop names a node, a component, a precomputed-indexes slot (zero for simple
      components), and input value, output value, output derivative (required) and input
      derivative views. */
  predicate BackpropIndexesInRange(nnet: Nnet, comp: Computation, c: Command) {
    0 <= c.arg1 < nnet.numNodes && 0 <= c.arg2 < |nnet.components| &&
    0 <= c.arg3 <= comp.numPrecomputedIndexes &&
    (c.arg3 != 0 ==> SimpleComponent !in nnet.components[c.arg2].properties) &&
    IsViewOrEmpty(comp, c.arg4) && IsViewOrEmpty(comp, c.arg5) && IsView(comp, c.arg6) && IsViewOrEmpty(comp, c.arg7)
  }

  /** The inputs the component needs are supplied, the backprop has an effect, it runs in place
      only if the component supports that, the widths match the component's dimensions and the
      row counts agree. */
  predicate BackpropConsistent(nnet: Nnet, comp: Computation, c: Command)
    requires BackpropIndexesInRange(nnet, comp, c)
  {
    var component := nnet.components[c.arg2];
    var props := component.properties;
    (BackpropNeedsInput in props ==> c.arg4 != 0) && (BackpropNeedsOutput in props ==> c.arg5 != 0) &&
    !NoEffect(props, c) && (c.arg6 == c.arg7 ==> BackpropInPlace in props) &&
    (c.arg4 != 0 ==> Cols(comp, c.arg4) == component.inputDim) &&
    (c.arg5 != 0 ==> Cols(comp, c.arg5) == component.outputDim) &&
    Cols(comp, c.arg6) == component.outputDim &&
    (c.arg7 != 0 ==> Cols(comp, c.arg7) == component.inputDim) &&
    (c.arg4 != 0 && c.arg7 != 0 ==> Rows(comp, c.arg4) == Rows(comp, c.arg7)) &&
    !OutputRowsMismatch(comp, c) &&
    (SimpleComponent in props && c.arg7 != 0 ==> Rows(comp, c.arg6) == Rows(comp, c.arg7))
  }

  predicate BackpropWellFormed(nnet: Nnet, comp: Computation, c: Command) {
    BackpropIndexesInRange(nnet, comp, c) && BackpropConsistent(nnet, comp, c)
  }

  /** The backprop checks that follow the range checks. */
  function CheckBackpropConsistent(nnet: Nnet, comp: Computation, c: Command): (r: Outcome)
    requires BackpropIndexesInRange(nnet, comp, c)
    ensures r.Pass? <==> BackpropConsistent(nnet, comp, c)
  {
    var component := nnet.components[c.arg2];
    var props := component.properties;
    if BackpropNeedsInput in props && c.arg4 == 0 then Fail("Backprop input needed but not supplied.")
    else if BackpropNeedsOutput in props && c.arg5 == 0 then Fail("Backprop output needed but not supplied.")
    else if NoEffect(props, c) then Fail("Backprop is done but has no effect.")
    else if c.arg6 == c.arg7 && BackpropInPlace !in props then Fail("In-place backprop used where not supported.")
    else if c.arg4 != 0 && Cols(comp, c.arg4) != component.inputDim then Fail("Input-dim mismatch in backprop.")
    else if c.arg5 != 0 && Cols(comp, c.arg5) != component.outputDim then Fail("Output-dim mismatch in backprop.")
    else if c.arg6 != 0 && Cols(comp, c.arg6) != component.outputDim then Fail("Output-dim mismatch in backprop.")
    else if c.arg7 != 0 && Cols(comp, c.arg7) != component.inputDim then Fail("Input-dim mismatch in backprop.")
    else if c.arg4 != 0 && c.arg7 != 0 && Rows(comp, c.arg4) != Rows(comp, c.arg7)
    then Fail("Num-rows mismatch in backprop input")
    else if OutputRowsMismatch(comp, c) then Fail("Num-rows mismatch in backprop output")
    else if SimpleComponent in props && c.arg7 != 0 && Rows(comp, c.arg6) != Rows(comp, c.arg7)
    then Fail("Num-rows mismatch in backprop input vs output.")
    else Pass
  }

  /** The backprop case without the stray `;` after the component-range test, with `&` for the
      updatable test and `&&` for the output rows test. */
  function CheckBackprop(nnet: Nnet, comp: Computation, c: Command): (r: Outcome)
    ensures r.Pass? <==> BackpropWellFormed(nnet, comp, c)
  {
    var ns := |comp.submatrices|;
    if c.arg1 < 0 || c.arg1 >= nnet.numNodes then Fail("Node index in backprop out of range")
    else if c.arg2 < 0 || c.arg2 >= |nnet.components| then Fail("Component index in backprop out of range")
    else if c.arg3 < 0 || c.arg3 > comp.numPrecomputedIndexes then Fail("Precomputed-indexes index out of range")
    else if c.arg3 != 0 && SimpleComponent in nnet.components[c.arg2].properties
    then Fail("Precomputed-indexes index nonzero for simple component")
    else if c.arg4 < 0 || c.arg4 >= ns || c.arg5 < 0 || c.arg5 >= ns ||
            c.arg6 < 1 || c.arg6 >= ns || c.arg7 < 0 || c.arg7 >= ns
    then Fail("Submatrix index out of range for backprop.")
    else CheckBackpropConsistent(nnet, comp, c)
  }

  /** The backprop case as written: the `;` ends the component-range `if`, so the error after it
      is raised for every command that gets past the node-range test. */
  function CheckBackpropAsWritten(nnet: Nnet, c: Command): Outcome {
    if c.arg1 < 0 || c.arg1 >= nnet.numNodes then Fail("Node index in backprop out of range")
    else Fail("Component index in backprop out of range")
  }

  // ---- matrix copy / add ---------------------------------------------------------------

  /** Copy and add combine two distinct views of the same shape. */
  predicate CopyAddWellFormed(comp: Computation, c: Command) {
    IsView(comp, c.arg1) && IsView(comp, c.arg2) &&
    Rows(comp, c.arg1) == Rows(comp, c.arg2) && Cols(comp, c.arg1) == Cols(comp, c.arg2) &&
    c.arg1 != c.arg2
  }

  function CheckCopyAdd(comp: Computation, c: Command): (r: Outcome)
    ensures r.Pass? <==> CopyAddWellFormed(comp, c)
  {
    var ns := |comp.submatrices|;
    if c.arg1 < 1 || c.arg1 >= ns || c.arg2 < 1 || c.arg2 >= ns
    then Fail("Submatrix indexes out of range in matrix copy/add")
    else if Rows(comp, c.arg1) != Rows(comp, c.arg2) || Cols(comp, c.arg1) != Cols(comp, c.arg2)
    then Fail("Submatrix indexes out of range in matrix copy/add")
    else if c.arg1 == c.arg2 then Fail("Adding/copying to self")
    else Pass
  }

  // ---- add-rows / copy-rows ------------------------------------------------------------

  /** `std::max_element` of a non-empty list. */
  function MaxElement(s: seq<int>): (m: int)
    requires |s| > 0
    ensures m in s
    ensures forall k :: 0 <= k < |s| ==> s[k] <= m
  {
    if |s| == 1 then s[0]
    else
      var rest := MaxElement(s[1..]);
      assert forall k :: 1 <= k < |s| ==> s[k] == s[1..][k - 1];
      if s[0] >= rest then s[0] else rest
  }

  /** Row copies and adds take one index per destination row, each below the source's row
      count, between distinct views of the same width. */
  predicate RowsWellFormed(comp: Computation, c: Command) {
    IsView(comp, c.arg1) && IsView(comp, c.arg2) && 0 <= c.arg3 < |comp.indexes| &&
    var indexes := comp.indexes[c.arg3];
    |indexes| == Rows(comp, c.arg1) && Cols(comp, c.arg1) == Cols(comp, c.arg2) &&
    (forall k :: 0 <= k < |indexes| ==> indexes[k] < Rows(comp, c.arg2)) &&
    c.arg1 != c.arg2
  }

  function CheckRows(comp: Computation, c: Command): (r: Outcome)
    ensures r.Pass? <==> RowsWellFormed(comp, c)
  {
    var ns := |comp.submatrices|;
    if c.arg1 < 1 || c.arg1 >= ns || c.arg2 < 1 || c.arg2 >= ns || c.arg3 < 0 || c.arg3 >= |comp.indexes|
    then Fail("Index out of range in add-rows/copy-rows command.")
    else
      var indexes := comp.indexes[c.arg3];
      if |indexes| != Rows(comp, c.arg1) then Fail("Indexes size mismatch in add-rows/copy-rows")
      else if Cols(comp, c.arg1) != Cols(comp, c.arg2) then Fail("Dimension mismatch in add-rows/copy-rows")
      else if |indexes| > 0 && MaxElement(indexes) >= Rows(comp, c.arg2)
      then Fail("Row-index out of range in add-rows/copy-rows")
      else if c.arg1 == c.arg2 then Fail("Copying to self in add-rows/copy-rows command.")
      else Pass
  }

  // ---- the *-multi commands ------------------------------------------------------------

  /** A (sub-matrix, row) pair is (-1, -1), or a row of a view other than the command's own
      whose width matches it. */
  predicate PairWellFormed(comp: Computation, c: Command, p: (int, int))
    requires IsView(comp, c.arg1)
  {
    if p.0 == -1 then p.1 == -1
    else IsView(comp, p.0) && 0 <= p.1 < Rows(comp, p.0) && p.0 != c.arg1 && Cols(comp, p.0) == Cols(comp, c.arg1)
  }

  function CheckPair(comp: Computation, c: Command, p: (int, int)): (r: Outcome)
    requires IsView(comp, c.arg1)
    ensures r.Pass? <==> PairWellFormed(comp, c, p)
  {
    if p.0 == -1 then
      if p.1 != -1 then Fail("Expected -1 row index if submatrix index is -1") else Pass
    else if p.0 < 1 || p.0 >= |comp.submatrices| then Fail("Submatrix index out of range in indexes_multi")
    else if p.1 < 0 || p.1 >= Rows(comp, p.0) then Fail("Row index out of range in indexes_multi")
    else if p.0 == c.arg1 then Fail("Copying from self in *-multi command.")
    else if Cols(comp, p.0) != Cols(comp, c.arg1) then Fail("Mismatching dimension in *-multi command")
    else Pass
  }

  /** The pairs from position `from` on, checked in order. */
  function CheckPairsFrom(comp: Computation, c: Command, pairs: seq<(int, int)>, from: nat): (r: Outcome)
    requires IsView(comp, c.arg1) && from <= |pairs|
    ensures r.Pass? <==> forall k :: from <= k < |pairs| ==> PairWellFormed(comp, c, pairs[k])
    decreases |pairs| - from
  {
    if from == |pairs| then Pass
    else match CheckPair(comp, c, pairs[from])
         case Fail(m) => Fail(m)
         case Pass => CheckPairsFrom(comp, c, pairs, from + 1)
  }

  function DuplicateMessage(p: (int, int)): string {
    "Duplicate element " + IntToString(p.0) + "," + IntToString(p.1) +
    " found in indexes for {add,copy}-to-rows-multi command."
  }

  /** The duplicate test of the to-rows-multi commands: sort a copy of the pairs and report the
      first pair other than (-1, ...) that equals its successor. */
  function CheckDuplicates(pairs: seq<(int, int)>): (r: Outcome)
    ensures r.Pass? <==> !HasDuplicate(pairs)
    ensures r.Fail? ==> exists i, j :: 0 <= i < j < |pairs| && pairs[i] == pairs[j] && pairs[i].0 != -1 &&
                                       r.message == DuplicateMessage(pairs[i])
  {
    var sorted := SortPairs(pairs);
    var k := FirstAdjacentDuplicate(sorted, 0);
    SortedScanFindsDuplicates(pairs);
    if k == -1 then Pass else Fail(DuplicateMessage(sorted[k]))
  }

  predicate IsToRowsMulti(c: Command) {
    c.commandType == AddToRowsMulti || c.commandType == CopyToRowsMulti
  }

  /** The multi commands hold one well-formed pair per row of their view; the to-rows forms
      write each (sub-matrix, row) at most once. */
  predicate MultiWellFormed(comp: Computation, c: Command) {
    IsView(comp, c.arg1) && 0 <= c.arg2 < |comp.indexesMulti| &&
    var pairs := comp.indexesMulti[c.arg2];
    |pairs| == Rows(comp, c.arg1) &&
    (forall k :: 0 <= k < |pairs| ==> PairWellFormed(comp, c, pairs[k])) &&
    (IsToRowsMulti(c) ==> !HasDuplicate(pairs))
  }

  function CheckMulti(comp: Computation, c: Command): (r: Outcome)
    ensures r.Pass? <==> MultiWellFormed(comp, c)
  {
    if c.arg1 < 1 || c.arg1 >= |comp.submatrices| || c.arg2 < 0 || c.arg2 >= |comp.indexesMulti|
    then Fail("Index out of range in *-multi command")
    else
      var pairs := comp.indexesMulti[c.arg2];
      if |pairs| != Rows(comp, c.arg1) then Fail("Indexes dimension mismatch in *-multi command")
      else match CheckPairsFrom(comp, c, pairs, 0)
           case Fail(m) => Fail(m)
           case Pass => if IsToRowsMulti(c) then CheckDuplicates(pairs) else Pass
  }

  // ---- add-row-ranges ------------------------------------------------------------------

  function RangeMessage(p: (int, int)): string {
    "Row range " + IntToString(p.0) + "," + IntToString(p.1) + " out of range in add-row-ranges command."
  }

  /** The ranges from position `from` on, checked in order. */
  function CheckRangesFrom(ranges: seq<(int, int)>, srcRows: int, from: nat): (r: Outcome)
    requires from <= |ranges|
    ensures r.Pass? <==> forall k :: from <= k < |ranges| ==> 0 <= ranges[k].0 <= ranges[k].1 <= srcRows
    decreases |ranges| - from
  {
    if from == |ranges| then Pass
    else
      var p := ranges[from];
      if p.1 < p.0 || p.0 < 0 || p.1 > srcRows then Fail(RangeMessage(p))
      else CheckRangesFrom(ranges, srcRows, from + 1)
  }

  /** The part of the add-row-ranges check that follows the operand range test, given the list
      of ranges it looked up. */
  function CheckRowRangesWith(comp: Computation, c: Command, ranges: seq<(int, int)>): Outcome
    requires IsView(comp, c.arg1) && IsView(comp, c.arg2)
  {
    if Rows(comp, c.arg1) != |ranges| then Fail("Num-rows mismatch in add-row-ranges command")
    else if Cols(comp, c.arg1) != Cols(comp, c.arg2) then Fail("Dimension mismatch in add-row-ranges command")
    else CheckRangesFrom(ranges, Rows(comp, c.arg2), 0)
  }

  /** Adding row ranges takes one range per destination row, each inside the source's rows,
      between views of the same width. */
  predicate RowRangesWellFormed(comp: Computation, c: Command) {
    IsView(comp, c.arg1) && IsView(comp, c.arg2) && 0 <= c.arg3 < |comp.indexesRanges| &&
    var ranges := comp.indexesRanges[c.arg3];
    Rows(comp, c.arg1) == |ranges| && Cols(comp, c.arg1) == Cols(comp, c.arg2) &&
    forall k :: 0 <= k < |ranges| ==> 0 <= ranges[k].0 <= ranges[k].1 <= Rows(comp, c.arg2)
  }

  /** The add-row-ranges check reading the ranges list `arg3`, the one its range test covers. */
  function CheckRowRanges(comp: Computation, c: Command): (r: Outcome)
    ensures r.Pass? <==> RowRangesWellFormed(comp, c)
  {
    var ns := |comp.submatrices|;
    if c.arg1 < 1 || c.arg1 >= ns || c.arg2 < 1 || c.arg2 >= ns || c.arg3 < 0 || c.arg3 >= |comp.indexesRanges|
    then Fail("Index out of range in add-row-ranges command")
    else CheckRowRangesWith(comp, c, comp.indexesRanges[c.arg3])
  }

  /** The add-row-ranges check as written, reading the ranges list `arg2` (the source view's
      index) instead. */
  function CheckRowRangesAsWritten(comp: Computation, c: Command): Outcome
    requires IsView(comp, c.arg2) ==> c.arg2 < |comp.indexesRanges|
  {
    var ns := |comp.submatrices|;
    if c.arg1 < 1 || c.arg1 >= ns || c.arg2 < 1 || c.arg2 >= ns || c.arg3 < 0 || c.arg3 >= |comp.indexesRanges|
    then Fail("Index out of range in add-row-ranges command")
    else CheckRowRangesWith(comp, c, comp.indexesRanges[c.arg2])
  }

  // ---- the whole pass ------------------------------------------------------------------

  predicate CommandWellFormed(nnet: Nnet, comp: Computation, c: Command) {
    match c.commandType
    case ResizeMatrixZeroed => ResizeWellFormed(comp, c)
    case ResizeMatrixUndefined => ResizeWellFormed(comp, c)
    case ResizeMatrixEmpty => ResizeWellFormed(comp, c)
    case Propagate => PropagateWellFormed(nnet, comp, c)
    case StoreStats => StoreStatsWellFormed(nnet, comp, c)
    case Backprop => BackpropWellFormed(nnet, comp, c)
    case MatrixCopy => CopyAddWellFormed(comp, c)
    case MatrixAdd => CopyAddWellFormed(comp, c)
    case AddRows => RowsWellFormed(comp, c)
    case CopyRows => RowsWellFormed(comp, c)
    case AddRowsMulti => MultiWellFormed(comp, c)
    case CopyRowsMulti => MultiWellFormed(comp, c)
    case AddToRowsMulti => MultiWellFormed(comp, c)
    case CopyToRowsMulti => MultiWellFormed(comp, c)
    case AddRowRanges => RowRangesWellFormed(comp, c)
    case NoOperation => true
    case NoOperationMarker => true
  }

  function CheckCommand(nnet: Nnet, comp: Computation, c: Command): (r: Outcome)
    ensures r.Pass? <==> CommandWellFormed(nnet, comp, c)
  {
    match c.commandType
    case ResizeMatrixZeroed => CheckResize(comp, c)
    case ResizeMatrixUndefined => CheckResize(comp, c)
    case ResizeMatrixEmpty => CheckResize(comp, c)
    case Propagate => CheckPropagate(nnet, comp, c)
    case StoreStats => CheckStoreStats(nnet, comp, c)
    case Backprop => CheckBackprop(nnet, comp, c)
    case MatrixCopy => CheckCopyAdd(comp, c)
    case MatrixAdd => CheckCopyAdd(comp, c)
    case AddRows => CheckRows(comp, c)
    case CopyRows => CheckRows(comp, c)
    case AddRowsMulti => CheckMulti(comp, c)
    case CopyRowsMulti => CheckMulti(comp, c)
    case AddToRowsMulti => CheckMulti(comp, c)
    case CopyToRowsMulti => CheckMulti(comp, c)
    case AddRowRanges => CheckRowRanges(comp, c)
    case NoOperation => Pass
    case NoOperationMarker => Pass
  }

  /** The commands from `from` on, checked in order: the first failure is reported. */
  function CheckIndexesFrom(nnet: Nnet, comp: Computation, from: nat): (r: Outcome)
    ensures r.Pass? <==> forall k :: from <= k < |comp.commands| ==> CommandWellFormed(nnet, comp, comp.commands[k])
    ensures r.Fail? ==> exists k :: from <= k < |comp.commands| && r == CheckCommand(nnet, comp, comp.commands[k]) &&
                                    forall j :: from <= j < k ==> CommandWellFormed(nnet, comp, comp.commands[j])
    decreases |comp.commands| - from
  {
    if from >= |comp.commands| then Pass
    else match CheckCommand(nnet, comp, comp.commands[from])
         case Fail(m) => Fail(m)
         case Pass => CheckIndexesFrom(nnet, comp, from + 1)
  }

  /** `CheckComputationIndexes`. */
  function CheckIndexes(nnet: Nnet, comp: Computation): Outcome {
    CheckIndexesFrom(nnet, comp, 0)
  }


  // ---- what an accepted computation guarantees -----------------------------------------

  /** A command that passes its check names only operands that exist, which is what the
      attribute computation relies on. */
  lemma {:induction false} WellFormedInRange(nnet: Nnet, comp: Computation, c: Command)
    requires CommandWellFormed(nnet, comp, c)
    ensures Attributes.CommandInRange(nnet, comp, c)
  {
    if c.commandType in {AddRowsMulti, CopyRowsMulti, AddToRowsMulti, CopyToRowsMulti} {
      var pairs := comp.indexesMulti[c.arg2];
      forall k | 0 <= k < |pairs| ensures pairs[k].0 == -1 || 0 <= pairs[k].0 < |comp.submatrices| {
        assert PairWellFormed(comp, c, pairs[k]);
      }
    }
  }

  /** Every command of a computation whose indexes pass is in range for the attribute
      computation. */
  lemma {:induction false} AcceptedIndexesInRange(nnet: Nnet, comp: Computation)
    requires CheckIndexes(nnet, comp).Pass?
    ensures forall k :: 0 <= k < |comp.commands| ==> Attributes.CommandInRange(nnet, comp, comp.commands[k])
  {
    forall k | 0 <= k < |comp.commands| ensures Attributes.CommandInRange(nnet, comp, comp.commands[k]) {
      WellFormedInRange(nnet, comp, comp.commands[k]);
    }
  }

  /** In an accepted computation a to-rows-multi command never writes the same row twice. */
  lemma AcceptedToRowsMultiWritesOnce(nnet: Nnet, comp: Computation, k: int)
    requires CheckIndexes(nnet, comp).Pass?
    requires 0 <= k < |comp.commands| && IsToRowsMulti(comp.commands[k])
    ensures var pairs := comp.indexesMulti[comp.commands[k].arg2];
            forall i, j :: 0 <= i < j < |pairs| && pairs[i].0 != -1 ==> pairs[i] != pairs[j]
  {
    assert CommandWellFormed(nnet, comp, comp.commands[k]);
  }

  // ---- the checks as written ---------------------------------------------------------------

  /** A network of one node with a simple component and a statistics-storing component, and a
      computation with two 1x1 matrices viewed whole, whose `indexes_ranges` holds the range
      list [(0, 1)] and the empty list. */
  function ExampleNnet(): Nnet {
    Nnet([Component({SimpleComponent}, 1, 1), Component({StoresStats}, 1, 1)], 1, {}, {})
  }

  function ExampleComputation(): Computation {
    Computation([MatrixInfo(0, 0), MatrixInfo(1, 1), MatrixInfo(1, 1)],
                [SubMatrixInfo(0, 0, 0, 0, 0), SubMatrixInfo(1, 0, 1, 0, 1), SubMatrixInfo(2, 0, 1, 0, 1)],
                [], [], [], [[(0, 1)], []], [], 0, 0)
  }

  /** The stray `;` makes the backprop check reject every command that names a valid node,
      well-formed ones included. */
  lemma BackpropAsWrittenRejectsWellFormed()
    ensures var c := Command(Backprop, 0, 0, 0, 0, 0, 1, 2);
            CheckBackprop(ExampleNnet(), ExampleComputation(), c) == Pass &&
            CheckBackpropAsWritten(ExampleNnet(), c) == Fail("Component index in backprop out of range")
  {
  }

  /** The missing `break` sends a well-formed store-stats command into the backprop check as
      written, which rejects it. */
  lemma StoreStatsAsWrittenRejectsWellFormed()
    ensures var c := Command(StoreStats, 1, 1, 0, 0, 0, 0, 0);
            CheckStoreStats(ExampleNnet(), ExampleComputation(), c) == Pass &&
            CheckStoreStatsAsWritten(ExampleNnet(), ExampleComputation(), c) == Fail("Node index in backprop out of range")
  {
  }

  /** With `&&` the "no effect" test misses a non-updatable component that has any property. */
  lemma NoEffectAsWrittenMisses(props: set<ComponentProperty>, c: Command)
    requires c.arg7 == 0 && UpdatableComponent !in props && props != {}
    ensures NoEffect(props, c) && !NoEffectAsWritten(props, c)
  {
  }

  /** With `||` the output rows test rejects a supplied output value whose rows do match. */
  lemma OutputRowsAsWrittenRejectsMatch(comp: Computation, c: Command)
    requires IsViewOrEmpty(comp, c.arg5) && IsViewOrEmpty(comp, c.arg6)
    requires c.arg5 != 0 && Rows(comp, c.arg5) == Rows(comp, c.arg6)
    ensures OutputRowsMismatchAsWritten(comp, c) && !OutputRowsMismatch(comp, c)
  {
  }

  /** Reading the ranges at `arg2` instead of `arg3` rejects a well-formed add-row-ranges
      command. */
  lemma RowRangesAsWrittenRejectsWellFormed()
    ensures var c := Command(AddRowRanges, 2, 1, 0, 0, 0, 0, 0);
            CheckRowRanges(ExampleComputation(), c) == Pass &&
            CheckRowRangesAsWritten(ExampleComputation(), c) == Fail("Num-rows mismatch in add-row-ranges command")
  {
  }
}
