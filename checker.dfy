/** `ComputationChecker` (src/nnet3/nnet-analyze.cc:447-838): runs the variable analysis, the
    index checks, the attribute and access computations, and then the passes that check the
    order of the forward and backward commands, the lifetime of every matrix, that no variable
    is read before it is written, and optionally that nothing is overwritten after being read. */
module Checker {
  import opened Outcomes
  import opened Decimal
  import opened Sorted
  import opened Ir
  import opened NnetOracle
  import opened AccessTypes
  import opened Variables
  import opened Attributes
  import opened IndexCheck
  import opened Accesses

  // ---- what the analysis and the index pass guarantee to the later stages ----------------

  /** The range of a non-reserved view lies among the computation's variables. */
  lemma RangeWithinVariables(comp: Computation, vi: VarInfo, i: int)
    requires Indexable(comp) && 1 <= i < |comp.submatrices|
    requires SplitShaped(vi.splitPoints) && vi.numVariables == VariableOffset(vi.splitPoints, |vi.splitPoints|)
    requires RangeDescribes(comp, vi, i)
    ensures 0 <= vi.variableRanges[i].0 && vi.variableRanges[i].1 <= vi.numVariables
  {
    var m := comp.submatrices[i].matrixIndex;
    OffsetsIncrease(vi.splitPoints, 1, m);
    OffsetsIncrease(vi.splitPoints, m + 1, |vi.splitPoints|);
  }

  /** The variables of every view lie among the computation's variables. */
  lemma {:induction false} ViewsWithinVariables(comp: Computation, vi: VarInfo)
    requires Indexable(comp) && Describes(comp, vi)
    ensures ShapedFor(comp, vi) && ViewsBounded(comp, vi)
  {
    forall i, v | 0 <= i < |comp.submatrices| && InRange(vi, i, v) ensures 0 <= v < vi.numVariables {
      if i > 0 {
        RangeWithinVariables(comp, vi, i);
      }
    }
  }

  /** Every variable of every view is one of the computation's variables. */
  ghost predicate ViewsBounded(comp: Computation, vi: VarInfo)
    requires ShapedFor(comp, vi)
  {
    forall i, v :: 0 <= i < |comp.submatrices| && InRange(vi, i, v) ==> 0 <= v < vi.numVariables
  }

  /** The variables a zeroing resize writes are those of its matrix. */
  lemma ResizeWithinVariables(vi: VarInfo, m: int)
    requires SplitShaped(vi.splitPoints) && 0 <= m < |vi.splitPoints|
    requires vi.matrixToVariableIndex == Offsets(vi.splitPoints)
    requires vi.numVariables == VariableOffset(vi.splitPoints, |vi.splitPoints|)
    ensures 0 <= vi.matrixToVariableIndex[m] && vi.matrixToVariableIndex[m + 1] <= vi.numVariables
  {
    assert vi.matrixToVariableIndex[m] == VariableOffset(vi.splitPoints, m);
    assert vi.matrixToVariableIndex[m + 1] == VariableOffset(vi.splitPoints, m + 1);
    if m == 0 {
      OffsetsIncrease(vi.splitPoints, 1, |vi.splitPoints|);
    } else {
      OffsetsIncrease(vi.splitPoints, 1, m);
      OffsetsIncrease(vi.splitPoints, m + 1, |vi.splitPoints|);
    }
  }

  /** The attributes of a command in range are sorted, duplicate-free lists of variables of the
      computation. */
  lemma {:induction false} AttributesWithinVariables(nnet: Nnet, comp: Computation, vi: VarInfo, c: Command)
    requires ShapedFor(comp, vi) && CommandInRange(nnet, comp, c) && ViewsBounded(comp, vi)
    requires SplitShaped(vi.splitPoints) && |vi.splitPoints| == |comp.matrices|
    requires vi.matrixToVariableIndex == Offsets(vi.splitPoints)
    requires vi.numVariables == VariableOffset(vi.splitPoints, |vi.splitPoints|)
    ensures var attr := AttributesOf(nnet, comp, vi, c);
            StrictlySorted(attr.variablesRead) && StrictlySorted(attr.variablesWritten) &&
            (forall v :: v in attr.variablesRead ==> 0 <= v < vi.numVariables) &&
            (forall v :: v in attr.variablesWritten ==> 0 <= v < vi.numVariables)
  {
    if c.commandType == ResizeMatrixZeroed {
      ZeroingWithinVariables(nnet, comp, vi, c);
    } else {
      AttributesCharacterised(nnet, comp, vi, c);
      TableWithinVariables(comp, vi, AccessTable(nnet, comp, c));
    }
  }

  /** A zeroing resize writes only variables of the computation. */
  lemma ZeroingWithinVariables(nnet: Nnet, comp: Computation, vi: VarInfo, c: Command)
    requires ShapedFor(comp, vi) && CommandInRange(nnet, comp, c) && c.commandType == ResizeMatrixZeroed
    requires SplitShaped(vi.splitPoints) && |vi.splitPoints| == |comp.matrices|
    requires vi.matrixToVariableIndex == Offsets(vi.splitPoints)
    requires vi.numVariables == VariableOffset(vi.splitPoints, |vi.splitPoints|)
    ensures var attr := AttributesOf(nnet, comp, vi, c);
            attr.variablesRead == [] &&
            forall v :: v in attr.variablesWritten ==> 0 <= v < vi.numVariables
  {
    var lo := vi.matrixToVariableIndex[c.arg1];
    var hi := vi.matrixToVariableIndex[c.arg1 + 1];
    ZeroedAttributes(nnet, comp, vi, c);
    ResizeWithinVariables(vi, c.arg1);
    IntervalMembers(lo, hi);
  }

  /** Whatever a table of in-range accesses reads or writes is one of the computation's
      variables. */
  lemma TableWithinVariables(comp: Computation, vi: VarInfo, table: seq<SubmatrixAccess>)
    requires ShapedFor(comp, vi) && ViewsBounded(comp, vi) && TableInRange(comp, table)
    ensures forall k, v :: 0 <= k < |table| && (ReadsVariable(vi, table[k], v) || WritesVariable(vi, table[k], v)) ==>
                           0 <= v < vi.numVariables
  {
    forall k, v | 0 <= k < |table| && (ReadsVariable(vi, table[k], v) || WritesVariable(vi, table[k], v))
      ensures 0 <= v < vi.numVariables
    {
      assert InRange(vi, table[k].submatrix, v);
    }
  }

  /** After a successful analysis and index pass, every later stage gets what it requires. */
  lemma {:induction false} AnalysisFeedsPasses(nnet: Nnet, comp: Computation, vi: VarInfo)
    requires WellIndexed(comp) && Analyze(comp) == Ok(vi) && CheckIndexes(nnet, comp).Pass?
    ensures Indexable(comp) && Describes(comp, vi) && ShapedFor(comp, vi)
    ensures forall k :: 0 <= k < |comp.commands| ==> CommandInRange(nnet, comp, comp.commands[k])
    ensures ResizesInRange(comp, |comp.commands|)
    ensures vi.numVariables >= 0 && |vi.variableToMatrix| == vi.numVariables
    ensures forall v :: 0 <= v < vi.numVariables ==> 1 <= vi.variableToMatrix[v] < |comp.matrices|
    ensures AttributesWellFormed(AttributesSpec(nnet, comp, vi), vi.numVariables)
    ensures VariablesOwned(vi.variableToMatrix, AttributesSpec(nnet, comp, vi), |comp.matrices|)
  {
    AnalyzeDescribes(comp);
    IndexedAnalysisFeedsPasses(nnet, comp, vi);
  }

  /** The same, from what a successful analysis establishes. */
  lemma {:induction false} IndexedAnalysisFeedsPasses(nnet: Nnet, comp: Computation, vi: VarInfo)
    requires Indexable(comp) && Describes(comp, vi) && CheckIndexes(nnet, comp).Pass?
    ensures ShapedFor(comp, vi)
    ensures forall k :: 0 <= k < |comp.commands| ==> CommandInRange(nnet, comp, comp.commands[k])
    ensures ResizesInRange(comp, |comp.commands|)
    ensures vi.numVariables >= 0 && |vi.variableToMatrix| == vi.numVariables
    ensures forall v :: 0 <= v < vi.numVariables ==> 1 <= vi.variableToMatrix[v] < |comp.matrices|
    ensures AttributesWellFormed(AttributesSpec(nnet, comp, vi), vi.numVariables)
    ensures VariablesOwned(vi.variableToMatrix, AttributesSpec(nnet, comp, vi), |comp.matrices|)
  {
    DescribedIsShaped(comp, vi);
    AcceptedIndexesInRange(nnet, comp);
    forall c | 0 <= c < |comp.commands|
      ensures comp.commands[c].commandType in {ResizeMatrixZeroed, ResizeMatrixUndefined, ResizeMatrixEmpty} ==>
                0 <= comp.commands[c].arg1 < |comp.matrices|
    {
      assert CommandWellFormed(nnet, comp, comp.commands[c]);
    }
    OffsetsIncrease(vi.splitPoints, 1, |vi.splitPoints|);
    forall v | 0 <= v < vi.numVariables ensures 1 <= vi.variableToMatrix[v] < |comp.matrices| {
      assert OwnsVariable(vi, vi.variableToMatrix[v], v);
    }
    ViewsWithinVariables(comp, vi);
    AttributesSpecWellFormed(nnet, comp, vi);
  }

  /** The attributes of commands in range name only the computation's variables, each owned by
      a real matrix. */
  lemma {:induction false} AttributesSpecWellFormed(nnet: Nnet, comp: Computation, vi: VarInfo)
    requires ShapedFor(comp, vi) && ViewsBounded(comp, vi)
    requires forall k :: 0 <= k < |comp.commands| ==> CommandInRange(nnet, comp, comp.commands[k])
    requires SplitShaped(vi.splitPoints) && |vi.splitPoints| == |comp.matrices|
    requires vi.matrixToVariableIndex == Offsets(vi.splitPoints)
    requires vi.numVariables == VariableOffset(vi.splitPoints, |vi.splitPoints|)
    requires |vi.variableToMatrix| == vi.numVariables
    requires forall v :: 0 <= v < vi.numVariables ==> 1 <= vi.variableToMatrix[v] < |comp.matrices|
    ensures AttributesWellFormed(AttributesSpec(nnet, comp, vi), vi.numVariables)
    ensures VariablesOwned(vi.variableToMatrix, AttributesSpec(nnet, comp, vi), |comp.matrices|)
  {
    var attrs := AttributesSpec(nnet, comp, vi);
    forall c | 0 <= c < |attrs|
      ensures StrictlySorted(attrs[c].variablesRead) && StrictlySorted(attrs[c].variablesWritten) &&
              (forall v :: v in attrs[c].variablesRead ==> 0 <= v < vi.numVariables) &&
              (forall v :: v in attrs[c].variablesWritten ==> 0 <= v < vi.numVariables)
    {
      AttributesWithinVariables(nnet, comp, vi, comp.commands[c]);
    }
  }

  // ---- CheckComputationOrder -------------------------------------------------------------

  /** The marker separates the forward commands from the backward ones: no other marker, no
      backprop before it, no propagation or statistics storage after it. */
  predicate Placed(t: CommandType, c: int, forwardEnd: int) {
    (c != forwardEnd ==> t != NoOperationMarker) &&
    (c < forwardEnd ==> t != Backprop) &&
    (c > forwardEnd ==> t != Propagate && t != StoreStats)
  }

  /** `forward_computation_end` indexes a marker and every command is on the right side of it. */
  predicate OrderWellFormed(comp: Computation) {
    var e := comp.forwardComputationEnd;
    0 <= e < |comp.commands| && comp.commands[e].commandType == NoOperationMarker &&
    forall c :: 0 <= c < |comp.commands| ==> Placed(comp.commands[c].commandType, c, e)
  }

  function PlacementCheck(t: CommandType, c: int, forwardEnd: int): (r: Outcome)
    ensures r.Pass? <==> Placed(t, c, forwardEnd)
  {
    if c != forwardEnd && t == NoOperationMarker then Fail("Found kNoOpMarker in unexpected place")
    else if c < forwardEnd && t == Backprop then Fail("Backprop occurs before kNoOpMarker")
    else if c > forwardEnd && t == Propagate then Fail("Propagate occurs after kNoOpMarker")
    else if c > forwardEnd && t == StoreStats then Fail("StoreStats occurs after kNoOpMarker")
    else Pass
  }

  /** The placement of the commands from `from` on, the first misplaced one reported. */
  function PlacementsCheck(comp: Computation, from: nat): (r: Outcome)
    ensures r.Pass? <==>
              forall c :: from <= c < |comp.commands| ==> Placed(comp.commands[c].commandType, c, comp.forwardComputationEnd)
    decreases |comp.commands| - from
  {
    if from >= |comp.commands| then Pass
    else match PlacementCheck(comp.commands[from].commandType, from, comp.forwardComputationEnd)
         case Fail(msg) => Fail(msg)
         case Pass => PlacementsCheck(comp, from + 1)
  }

  function OrderCheck(comp: Computation): (r: Outcome)
    ensures r.Pass? <==> OrderWellFormed(comp)
  {
    var e := comp.forwardComputationEnd;
    if e < 0 || e >= |comp.commands| then Fail("forward_computation_end has bad value")
    else if comp.commands[e].commandType != NoOperationMarker then Fail("expected kNoOpMarker at forward_computation_end")
    else PlacementsCheck(comp, 0)
  }

  // ---- CheckComputationMatrixAccesses ---------------------------------------------------

  /** A matrix is allocated unless it is an input, and then before its first access; it is
      freed unless it is an output, and then after its last access. */
  predicate LifetimeOk(a: MatrixAccesses) {
    var acc := a.accessCommands;
    (a.isInput ==> a.initializeCommand == -1) &&
    (!a.isInput ==> a.initializeCommand != -1 && |acc| > 0 && acc[0] >= a.initializeCommand) &&
    (a.isOutput ==> a.destroyCommand == -1) &&
    (!a.isOutput ==> a.destroyCommand != -1 && |acc| > 0 && acc[|acc| - 1] < a.destroyCommand)
  }

  function NeverAccessed(m: int): string {
    "Matrix m" + IntToString(m) + " is never accessed."
  }

  /** The checks of one matrix, in the source's order. */
  function LifetimeCheck(a: MatrixAccesses, m: int): (r: Outcome)
    ensures r.Pass? <==> LifetimeOk(a)
  {
    var acc := a.accessCommands;
    var front :=
      if a.isInput then
        if a.initializeCommand != -1 then Fail("Input matrix is initialized.") else Pass
      else if a.initializeCommand == -1 then Fail("Matrix is not initialized.")
      else if acc == [] then Fail(NeverAccessed(m))
      else if acc[0] < a.initializeCommand then Fail("Matrix m" + IntToString(m) + " is accessed before it is initialized")
      else Pass;
    if front.Fail? then front
    else if a.isOutput then
      if a.destroyCommand != -1 then Fail("Output matrix is destroyed.") else Pass
    else if a.destroyCommand == -1 then Fail("Matrix is not destroyed.")
    else if acc == [] then Fail(NeverAccessed(m))
    else if acc[|acc| - 1] >= a.destroyCommand then Fail("Matrix m" + IntToString(m) + " is accessed after it is destroyed")
    else Pass
  }

  /** Matrices from `from` on, the first failure reported. */
  function LifetimesCheck(ma: seq<MatrixAccesses>, from: nat): (r: Outcome)
    ensures r.Pass? <==> forall m :: from <= m < |ma| ==> LifetimeOk(ma[m])
    decreases |ma| - from
  {
    if from >= |ma| then Pass
    else match LifetimeCheck(ma[from], from)
         case Fail(msg) => Fail(msg)
         case Pass => LifetimesCheck(ma, from + 1)
  }

  // ---- CheckComputationUndefined ---------------------------------------------------------

  function VariablePrefix(v: int, m: int): string {
    "Variable " + IntToString(v) + " (part of matrix m" + IntToString(m) + ") "
  }

  /** A variable is used, and its first access writes it unless its matrix is an input. */
  predicate DefinedBeforeRead(accesses: seq<Access>, isInput: bool) {
    |accesses| > 0 && (accesses[0].accessType == WriteAccess || isInput)
  }

  function UndefinedCheckAt(accesses: seq<Access>, v: int, m: int, isInput: bool): (r: Outcome)
    ensures r.Pass? <==> DefinedBeforeRead(accesses, isInput)
  {
    if accesses == [] then Fail(VariablePrefix(v, m) + "is never used.")
    else if accesses[0].accessType != WriteAccess && !isInput then Fail(VariablePrefix(v, m) + "is read before it is written to")
    else Pass
  }

  /** Every variable's matrix has a bookkeeping entry. */
  predicate OwnersIndexed(va: seq<seq<Access>>, owner: seq<int>, ma: seq<MatrixAccesses>) {
    |va| <= |owner| && forall v :: 0 <= v < |va| ==> 0 <= owner[v] < |ma|
  }

  /** Variables from `from` on, the first failure reported. */
  function UndefinedCheck(va: seq<seq<Access>>, owner: seq<int>, ma: seq<MatrixAccesses>, from: nat): (r: Outcome)
    requires OwnersIndexed(va, owner, ma)
    ensures r.Pass? <==> forall v :: from <= v < |va| ==> DefinedBeforeRead(va[v], ma[owner[v]].isInput)
    decreases |va| - from
  {
    if from >= |va| then Pass
    else match UndefinedCheckAt(va[from], from, owner[from], ma[owner[from]].isInput)
         case Fail(msg) => Fail(msg)
         case Pass => UndefinedCheck(va, owner, ma, from + 1)
  }

  // ---- CheckComputationRewrite -----------------------------------------------------------

  /** Once a variable has been only read, it is only read from then on. */
  predicate ReadOnlyOnceRead(accesses: seq<Access>) {
    forall i, j :: 0 <= i < j < |accesses| && accesses[i].accessType == ReadAccess ==> accesses[j].accessType == ReadAccess
  }

  /** The position of the first pure read at or after `from`, or -1. */
  function FirstPureRead(accesses: seq<Access>, from: nat): (k: int)
    requires from <= |accesses|
    ensures k == -1 || (from <= k < |accesses| && accesses[k].accessType == ReadAccess)
    ensures forall i :: from <= i < |accesses| && (k == -1 || i < k) ==> accesses[i].accessType != ReadAccess
    decreases |accesses| - from
  {
    if from == |accesses| then -1
    else if accesses[from].accessType == ReadAccess then from
    else FirstPureRead(accesses, from + 1)
  }

  /** Some access at or after `from` writes. */
  predicate WrittenFrom(accesses: seq<Access>, from: int) {
    exists i :: from <= i < |accesses| && 0 <= i && accesses[i].accessType != ReadAccess
  }

  function RewriteCheckAt(accesses: seq<Access>, v: int, m: int): (r: Outcome)
    ensures r.Pass? <==> |accesses| > 0 && ReadOnlyOnceRead(accesses)
  {
    if accesses == [] then Fail(VariablePrefix(v, m) + "is never used.")
    else
      var first := FirstPureRead(accesses, 0);
      if first != -1 && WrittenFrom(accesses, first + 1)
      then Fail(VariablePrefix(v, m) + "is modified after being read (this is not expected before optimization)")
      else Pass
  }

  /** Variables from `from` on, the first failure reported. */
  function RewriteCheck(va: seq<seq<Access>>, owner: seq<int>, from: nat): (r: Outcome)
    requires |va| <= |owner|
    ensures r.Pass? <==> forall v :: from <= v < |va| ==> |va[v]| > 0 && ReadOnlyOnceRead(va[v])
    decreases |va| - from
  {
    if from >= |va| then Pass
    else match RewriteCheckAt(va[from], from, owner[from])
         case Fail(msg) => Fail(msg)
         case Pass => RewriteCheck(va, owner, from + 1)
  }

  // ---- the whole check -------------------------------------------------------------------

  /** The access history of every variable. */
  function VariableAccessesSpec(attrs: seq<CommandAttributes>, numVariables: nat): (r: seq<seq<Access>>)
    ensures |r| == numVariables
  {
    seq(numVariables, v => History(attrs, v, |attrs|))
  }

  /** The four passes over the bookkeeping, in the source's order; the rewrite pass runs only
      when it is enabled. */
  function PassesCheck(checkRewrite: bool, comp: Computation, owner: seq<int>, va: seq<seq<Access>>,
                       ma: seq<MatrixAccesses>): (r: Outcome)
    requires OwnersIndexed(va, owner, ma)
    ensures r.Pass? <==>
              OrderWellFormed(comp) &&
              (forall m :: 1 <= m < |ma| ==> LifetimeOk(ma[m])) &&
              (forall v :: 0 <= v < |va| ==> DefinedBeforeRead(va[v], ma[owner[v]].isInput)) &&
              (checkRewrite ==> forall v :: 0 <= v < |va| ==> |va[v]| > 0 && ReadOnlyOnceRead(va[v]))
  {
    match OrderCheck(comp)
    case Fail(msg) => Fail(msg)
    case Pass =>
      match LifetimesCheck(ma, 1)
      case Fail(msg) => Fail(msg)
      case Pass =>
        match UndefinedCheck(va, owner, ma, 0)
        case Fail(msg) => Fail(msg)
        case Pass => if checkRewrite then RewriteCheck(va, owner, 0) else Pass
  }

  /** `ComputationChecker::Check` from construction on: the variable analysis, the index pass,
      the attributes and accesses, then the passes; the first failure is reported. */
  function CheckSpec(checkRewrite: bool, nnet: Nnet, comp: Computation): (r: Outcome)
    requires WellIndexed(comp) && DerivsInRange(comp.inputOutputInfo, |comp.matrices|)
    ensures r.Pass? ==> Analyze(comp).Ok? && CheckIndexes(nnet, comp).Pass? && OrderWellFormed(comp)
  {
    match Analyze(comp)
    case Err(msg) => Fail(msg)
    case Ok(vi) =>
      match CheckIndexes(nnet, comp)
      case Fail(msg) => Fail(msg)
      case Pass =>
        var (_, va, ma) := Tables(nnet, comp);
        match ma
        case Err(msg) => Fail(msg)
        case Ok(ma) => PassesCheck(checkRewrite, comp, vi.variableToMatrix, va, ma)
  }

  /** The tables `Check` computes once the analysis and the index pass have succeeded: the
      attributes of every command, the access history of every variable and the bookkeeping of
      every matrix (or the error that computing it reports). */
  function Tables(nnet: Nnet, comp: Computation): (r: (seq<CommandAttributes>, seq<seq<Access>>, Result<seq<MatrixAccesses>>))
    requires WellIndexed(comp) && DerivsInRange(comp.inputOutputInfo, |comp.matrices|)
    requires Analyze(comp).Ok? && CheckIndexes(nnet, comp).Pass?
    ensures |r.0| == |comp.commands| && |r.1| == Analyze(comp).value.numVariables
    ensures |Analyze(comp).value.variableToMatrix| == Analyze(comp).value.numVariables
    ensures r.2.Ok? ==> OwnersIndexed(r.1, Analyze(comp).value.variableToMatrix, r.2.value)
  {
    var vi := Analyze(comp).value;
    AnalysisFeedsPasses(nnet, comp, vi);
    var attrs := AttributesSpec(nnet, comp, vi);
    (attrs, VariableAccessesSpec(attrs, vi.numVariables), MatrixAccessesOf(nnet, comp, vi.variableToMatrix, attrs))
  }

  // ---- what an accepted computation satisfies --------------------------------------------

  /** The tables of a computation the checker accepts, and the facts the stages established. */
  lemma AcceptedUnfolds(checkRewrite: bool, nnet: Nnet, comp: Computation)
    returns (vi: VarInfo, attrs: seq<CommandAttributes>, ma: seq<MatrixAccesses>)
    requires WellIndexed(comp) && DerivsInRange(comp.inputOutputInfo, |comp.matrices|)
    requires CheckSpec(checkRewrite, nnet, comp).Pass?
    ensures Analyze(comp) == Ok(vi) && CheckIndexes(nnet, comp).Pass?
    ensures Tables(nnet, comp) == (attrs, VariableAccessesSpec(attrs, vi.numVariables), Ok(ma))
    ensures |attrs| == |comp.commands| && |ma| == |comp.matrices|
    ensures vi.numVariables >= 0 && |vi.variableToMatrix| == vi.numVariables
    ensures forall v :: 0 <= v < vi.numVariables ==> 1 <= vi.variableToMatrix[v] < |comp.matrices|
    ensures MatrixAccessesOf(nnet, comp, vi.variableToMatrix, attrs) == Ok(ma)
    ensures OwnersIndexed(VariableAccessesSpec(attrs, vi.numVariables), vi.variableToMatrix, ma)
    ensures PassesCheck(checkRewrite, comp, vi.variableToMatrix, VariableAccessesSpec(attrs, vi.numVariables), ma).Pass?
  {
    vi := Analyze(comp).value;
    AnalysisFeedsPasses(nnet, comp, vi);
    attrs := AttributesSpec(nnet, comp, vi);
    ma := MatrixAccessesOf(nnet, comp, vi.variableToMatrix, attrs).value;
  }

  /** No command allocates matrix `m`. */
  predicate NeverAllocated(comp: Computation, m: int) {
    forall c :: 0 <= c < |comp.commands| ==> !Initializes(comp.commands[c], m)
  }

  /** No command frees matrix `m`. */
  predicate NeverFreed(comp: Computation, m: int) {
    forall c :: 0 <= c < |comp.commands| ==> !Destroys(comp.commands[c], m)
  }

  /** Some command touches a variable of matrix `m`. */
  predicate MatrixUsed(owner: seq<int>, attrs: seq<CommandAttributes>, m: int) {
    exists c :: 0 <= c < |attrs| && TouchesMatrix(owner, attrs[c], m)
  }

  /** Exactly one command allocates matrix `m`, and no command touching `m` precedes it. */
  predicate AllocatedOnceFirst(comp: Computation, owner: seq<int>, attrs: seq<CommandAttributes>, m: int) {
    exists i :: 0 <= i < |comp.commands| && Initializes(comp.commands[i], m) &&
      (forall c :: 0 <= c < |comp.commands| && Initializes(comp.commands[c], m) ==> c == i) &&
      (forall c :: 0 <= c < |attrs| && TouchesMatrix(owner, attrs[c], m) ==> i <= c)
  }

  /** Exactly one command frees matrix `m`, and every command touching `m` precedes it. */
  predicate FreedOnceLast(comp: Computation, owner: seq<int>, attrs: seq<CommandAttributes>, m: int) {
    exists i :: 0 <= i < |comp.commands| && Destroys(comp.commands[i], m) &&
      (forall c :: 0 <= c < |comp.commands| && Destroys(comp.commands[c], m) ==> c == i) &&
      (forall c :: 0 <= c < |attrs| && TouchesMatrix(owner, attrs[c], m) ==> c < i)
  }

  /** A matrix whose last allocation comes before all of its accesses, when no matrix is
      allocated twice, is allocated exactly once and before any use. */
  lemma {:induction false} AllocationMeaning(comp: Computation, owner: seq<int>, attrs: seq<CommandAttributes>, m: int)
    requires |attrs| == |comp.commands| && ResizeCheck(comp, |attrs|).Pass?
    requires var i := LastInitialize(comp, m, |attrs|);
             var acc := AccessCommandsOf(owner, attrs, m, |attrs|);
             i != -1 && |acc| > 0 && acc[0] >= i
    ensures AllocatedOnceFirst(comp, owner, attrs, m) && MatrixUsed(owner, attrs, m)
  {
    var n := |attrs|;
    var i := LastInitialize(comp, m, n);
    var acc := AccessCommandsOf(owner, attrs, m, n);
    LastResizeCharacterised(comp, m, n);
    AccessCommandsCharacterised(owner, attrs, m, n);
    ResizeCheckPasses(comp, n);
    forall c | 0 <= c < n && Initializes(comp.commands[c], m) ensures c == i {
      if c < i {
        assert Clash(comp.commands[c], comp.commands[i]);
      }
    }
    forall c | 0 <= c < n && TouchesMatrix(owner, attrs[c], m) ensures i <= c {
      assert c in acc;
      var k :| 0 <= k < |acc| && acc[k] == c;
      assert acc[0] <= acc[k];
    }
    assert acc[0] in acc;
  }

  /** A matrix whose last release comes after all of its accesses, when no matrix is freed
      twice, is freed exactly once and after its last use. */
  lemma {:induction false} ReleaseMeaning(comp: Computation, owner: seq<int>, attrs: seq<CommandAttributes>, m: int)
    requires |attrs| == |comp.commands| && ResizeCheck(comp, |attrs|).Pass?
    requires var d := LastDestroy(comp, m, |attrs|);
             var acc := AccessCommandsOf(owner, attrs, m, |attrs|);
             d != -1 && |acc| > 0 && acc[|acc| - 1] < d
    ensures FreedOnceLast(comp, owner, attrs, m) && MatrixUsed(owner, attrs, m)
  {
    var n := |attrs|;
    var d := LastDestroy(comp, m, n);
    var acc := AccessCommandsOf(owner, attrs, m, n);
    LastResizeCharacterised(comp, m, n);
    AccessCommandsCharacterised(owner, attrs, m, n);
    ResizeCheckPasses(comp, n);
    forall c | 0 <= c < n && Destroys(comp.commands[c], m) ensures c == d {
      if c < d {
        assert Clash(comp.commands[c], comp.commands[d]);
      }
    }
    forall c | 0 <= c < n && TouchesMatrix(owner, attrs[c], m) ensures c < d {
      assert c in acc;
      var k :| 0 <= k < |acc| && acc[k] == c;
      assert acc[k] <= acc[|acc| - 1];
    }
    assert acc[0] in acc;
  }

  /** The lifetime pass's condition on a matrix's bookkeeping, read as a statement about the
      commands (given that no matrix is allocated twice or freed twice). */
  lemma {:induction false} LifetimeMeaning(comp: Computation, owner: seq<int>, attrs: seq<CommandAttributes>, m: int,
                                           isInput: bool, isOutput: bool)
    requires |attrs| == |comp.commands| && ResizeCheck(comp, |attrs|).Pass?
    requires LifetimeOk(MatrixAccesses(LastInitialize(comp, m, |attrs|), LastDestroy(comp, m, |attrs|),
                                       AccessCommandsOf(owner, attrs, m, |attrs|), isInput, isOutput))
    ensures isInput ==> NeverAllocated(comp, m)
    ensures !isInput ==> AllocatedOnceFirst(comp, owner, attrs, m) && MatrixUsed(owner, attrs, m)
    ensures isOutput ==> NeverFreed(comp, m)
    ensures !isOutput ==> FreedOnceLast(comp, owner, attrs, m) && MatrixUsed(owner, attrs, m)
  {
    LastResizeCharacterised(comp, m, |attrs|);
    if !isInput {
      AllocationMeaning(comp, owner, attrs, m);
    }
    if !isOutput {
      ReleaseMeaning(comp, owner, attrs, m);
    }
  }

  /** In an accepted computation, an input matrix is never allocated and any other matrix is
      allocated exactly once, before any use; an output matrix is never freed and any other
      matrix is freed exactly once, after its last use; and a matrix that is not both an input
      and an output is used. */
  lemma {:induction false} AcceptedMatrixLifetime(checkRewrite: bool, nnet: Nnet, comp: Computation, m: int)
    requires WellIndexed(comp) && DerivsInRange(comp.inputOutputInfo, |comp.matrices|)
    requires CheckSpec(checkRewrite, nnet, comp).Pass? && 1 <= m < |comp.matrices|
    ensures var attrs := Tables(nnet, comp).0;
            var owner := Analyze(comp).value.variableToMatrix;
            var io := comp.inputOutputInfo;
            (FlaggedInput(nnet, io, |io|, m) ==> NeverAllocated(comp, m)) &&
            (!FlaggedInput(nnet, io, |io|, m) ==> AllocatedOnceFirst(comp, owner, attrs, m) && MatrixUsed(owner, attrs, m)) &&
            (FlaggedOutput(nnet, io, |io|, m) ==> NeverFreed(comp, m)) &&
            (!FlaggedOutput(nnet, io, |io|, m) ==> FreedOnceLast(comp, owner, attrs, m) && MatrixUsed(owner, attrs, m))
  {
    var vi, attrs, ma := AcceptedUnfolds(checkRewrite, nnet, comp);
    var io := comp.inputOutputInfo;
    MatrixAccessesCharacterised(nnet, comp, vi.variableToMatrix, attrs);
    assert LifetimeOk(ma[m]);
    LifetimeMeaning(comp, vi.variableToMatrix, attrs, m, FlaggedInput(nnet, io, |io|, m), FlaggedOutput(nnet, io, |io|, m));
  }

  /** The first command that touches variable `v` writes it, unless `isInput`; and some command
      touches it. */
  predicate FirstAccessWrites(attrs: seq<CommandAttributes>, v: int, isInput: bool) {
    exists c :: 0 <= c < |attrs| && Touches(attrs[c], v) &&
      (forall b :: 0 <= b < c ==> !Touches(attrs[b], v)) &&
      (AccessKind(attrs[c], v) == WriteAccess || isInput)
  }

  /** A variable whose history starts with a write (or whose matrix is an input) is written by
      the first command that touches it. */
  lemma {:induction false} DefinedMeaning(attrs: seq<CommandAttributes>, v: int, isInput: bool)
    requires DefinedBeforeRead(History(attrs, v, |attrs|), isInput)
    ensures FirstAccessWrites(attrs, v, isInput)
  {
    var h := History(attrs, v, |attrs|);
    HistoryCharacterised(attrs, v, |attrs|);
    HistoryEntry(attrs, v, |attrs|, 0);
    var c := h[0].command;
    assert forall b :: 0 <= b < c ==> !Touches(attrs[b], v);
  }

  /** In an accepted computation every variable is used, and its first use writes it unless
      its matrix is an input of the computation. */
  lemma {:induction false} AcceptedVariableDefined(checkRewrite: bool, nnet: Nnet, comp: Computation, v: int)
    requires WellIndexed(comp) && DerivsInRange(comp.inputOutputInfo, |comp.matrices|)
    requires CheckSpec(checkRewrite, nnet, comp).Pass? && 0 <= v < Analyze(comp).value.numVariables
    ensures var io := comp.inputOutputInfo;
            FirstAccessWrites(Tables(nnet, comp).0, v,
                              FlaggedInput(nnet, io, |io|, Analyze(comp).value.variableToMatrix[v]))
  {
    var vi, attrs, ma := AcceptedUnfolds(checkRewrite, nnet, comp);
    var owner := vi.variableToMatrix;
    MatrixAccessesCharacterised(nnet, comp, owner, attrs);
    assert VariableAccessesSpec(attrs, vi.numVariables)[v] == History(attrs, v, |attrs|);
    assert DefinedBeforeRead(History(attrs, v, |attrs|), ma[owner[v]].isInput);
    DefinedMeaning(attrs, v, ma[owner[v]].isInput);
  }

  /** Once a command only reads variable `v`, every later command touching `v` only reads it. */
  predicate NoWriteAfterRead(attrs: seq<CommandAttributes>, v: int) {
    forall c1, c2 :: 0 <= c1 < c2 < |attrs| && Touches(attrs[c1], v) && Touches(attrs[c2], v) &&
                     AccessKind(attrs[c1], v) == ReadAccess ==>
                       AccessKind(attrs[c2], v) == ReadAccess
  }

  /** The rewrite pass's condition on a history is the same condition on the commands. */
  lemma NoRewriteMeaning(attrs: seq<CommandAttributes>, v: int)
    ensures ReadOnlyOnceRead(History(attrs, v, |attrs|)) <==> NoWriteAfterRead(attrs, v)
  {
    var h := History(attrs, v, |attrs|);
    HistoryCharacterised(attrs, v, |attrs|);
    if ReadOnlyOnceRead(h) {
      ReadOnlyGivesNoWrite(attrs, v, h);
    }
    if NoWriteAfterRead(attrs, v) {
      NoWriteGivesReadOnly(attrs, v, h);
    }
  }

  lemma ReadOnlyGivesNoWrite(attrs: seq<CommandAttributes>, v: int, h: seq<Access>)
    requires HistoryEntries(attrs, v, |attrs|, h) && HistoryComplete(attrs, v, |attrs|, h)
    requires ReadOnlyOnceRead(h)
    ensures NoWriteAfterRead(attrs, v)
  {
    forall c1, c2 | 0 <= c1 < c2 < |attrs| && Touches(attrs[c1], v) && Touches(attrs[c2], v) &&
                    AccessKind(attrs[c1], v) == ReadAccess
      ensures AccessKind(attrs[c2], v) == ReadAccess
    {
      var i1 :| 0 <= i1 < |h| && h[i1].command == c1;
      var i2 :| 0 <= i2 < |h| && h[i2].command == c2;
      assert !(i2 <= i1);
    }
  }

  lemma NoWriteGivesReadOnly(attrs: seq<CommandAttributes>, v: int, h: seq<Access>)
    requires HistoryEntries(attrs, v, |attrs|, h)
    requires NoWriteAfterRead(attrs, v)
    ensures ReadOnlyOnceRead(h)
  {
    forall i, j | 0 <= i < j < |h| && h[i].accessType == ReadAccess ensures h[j].accessType == ReadAccess {
      assert h[i].command < h[j].command;
    }
  }

  /** With the rewrite check enabled, an accepted computation never writes a variable after a
      command that only reads it, and every variable is used. */
  lemma {:induction false} AcceptedNoRewrite(nnet: Nnet, comp: Computation, v: int)
    requires WellIndexed(comp) && DerivsInRange(comp.inputOutputInfo, |comp.matrices|)
    requires CheckSpec(true, nnet, comp).Pass? && 0 <= v < Analyze(comp).value.numVariables
    ensures NoWriteAfterRead(Tables(nnet, comp).0, v)
    ensures exists c :: 0 <= c < |Tables(nnet, comp).0| && Touches(Tables(nnet, comp).0[c], v)
  {
    var vi, attrs, ma := AcceptedUnfolds(true, nnet, comp);
    var h := History(attrs, v, |attrs|);
    assert VariableAccessesSpec(attrs, vi.numVariables)[v] == h;
    assert |h| > 0 && ReadOnlyOnceRead(h);
    NoRewriteMeaning(attrs, v);
    HistoryCharacterised(attrs, v, |attrs|);
    assert Touches(attrs[h[0].command], v);
  }

  // ---- the checker object ----------------------------------------------------------------

  /** `CheckComputationRewrite` for one variable: finds its first pure read, then looks for a
      write after it. */
  method CheckVariableRewrite(accesses: seq<Access>, v: int, m: int) returns (r: Outcome)
    ensures r == RewriteCheckAt(accesses, v, m)
  {
    if accesses == [] {
      return Fail(VariablePrefix(v, m) + "is never used.");
    }
    var firstPureRead := -1;
    var access := 0;
    while access < |accesses|
      invariant 0 <= access <= |accesses| && firstPureRead == -1
      invariant FirstPureRead(accesses, 0) == FirstPureRead(accesses, access)
    {
      if accesses[access].accessType == ReadAccess {
        firstPureRead := access;
        break;
      }
      access := access + 1;
    }
    if firstPureRead != -1 {
      for later := firstPureRead + 1 to |accesses|
        invariant forall i :: firstPureRead + 1 <= i < later ==> accesses[i].accessType == ReadAccess
      {
        if accesses[later].accessType != ReadAccess {
          assert WrittenFrom(accesses, firstPureRead + 1);
          return Fail(VariablePrefix(v, m) + "is modified after being read (this is not expected before optimization)");
        }
      }
    }
    return Pass;
  }

  /** The checker: its configuration, the network and computation it was built for, the
      variable analysis its constructor ran, and the tables `Check` fills in. */
  class ComputationChecker {
    const checkRewrite: bool
    const nnet: Nnet
    const comp: Computation
    const variables: ComputationVariables
    /** How the constructor's analysis ended: a failure stands for an assertion it tripped. */
    const analysis: Outcome
    var attributes: seq<CommandAttributes>
    var variableAccesses: seq<seq<Access>>
    var matrixAccesses: seq<MatrixAccesses>

    ghost predicate Valid()
      reads this, variables
    {
      WellIndexed(comp) && DerivsInRange(comp.inputOutputInfo, |comp.matrices|) &&
      analysis == Analyze(comp).ToOutcome() &&
      (analysis.Pass? ==> variables.Info() == Analyze(comp).value)
    }

    /** Runs the variable analysis of `comp`. */
    constructor (checkRewrite: bool, nnet: Nnet, comp: Computation)
      requires WellIndexed(comp) && DerivsInRange(comp.inputOutputInfo, |comp.matrices|)
      ensures Valid()
      ensures this.checkRewrite == checkRewrite && this.nnet == nnet && this.comp == comp
      ensures attributes == [] && variableAccesses == [] && matrixAccesses == []
    {
      var vars := new ComputationVariables();
      var outcome := vars.Compute(comp);
      this.checkRewrite := checkRewrite;
      this.nnet := nnet;
      this.comp := comp;
      variables := vars;
      analysis := outcome;
      attributes := [];
      variableAccesses := [];
      matrixAccesses := [];
    }

    /** Every command's operands, in order; the first bad command is reported. */
    method CheckComputationIndexes() returns (r: Outcome)
      ensures r == CheckIndexes(nnet, comp)
    {
      for k := 0 to |comp.commands|
        invariant CheckIndexes(nnet, comp) == CheckIndexesFrom(nnet, comp, k)
      {
        r := CheckCommand(nnet, comp, comp.commands[k]);
        if r.Fail? {
          return;
        }
      }
      return Pass;
    }

    /** The marker at `forward_computation_end` and the side of it every command is on. */
    method CheckComputationOrder() returns (r: Outcome)
      ensures r == OrderCheck(comp)
    {
      var numCommands := |comp.commands|;
      var forwardEnd := comp.forwardComputationEnd;
      if forwardEnd < 0 || forwardEnd >= numCommands {
        return Fail("forward_computation_end has bad value");
      }
      if comp.commands[forwardEnd].commandType != NoOperationMarker {
        return Fail("expected kNoOpMarker at forward_computation_end");
      }
      for c := 0 to numCommands
        invariant PlacementsCheck(comp, 0) == PlacementsCheck(comp, c)
      {
        r := PlacementCheck(comp.commands[c].commandType, c, forwardEnd);
        if r.Fail? {
          return;
        }
      }
      return Pass;
    }

    /** The lifetime of every matrix but the reserved one. */
    method CheckComputationMatrixAccesses() returns (r: Outcome)
      ensures r == LifetimesCheck(matrixAccesses, 1)
    {
      var m := 1;
      while m < |matrixAccesses|
        invariant 1 <= m
        invariant LifetimesCheck(matrixAccesses, 1) == LifetimesCheck(matrixAccesses, m)
        decreases |matrixAccesses| - m
      {
        r := LifetimeCheck(matrixAccesses[m], m);
        if r.Fail? {
          return;
        }
        m := m + 1;
      }
      return Pass;
    }

    /** No variable is unused or read before it is written. */
    method CheckComputationUndefined() returns (r: Outcome)
      requires OwnersIndexed(variableAccesses, variables.variableToMatrix, matrixAccesses)
      ensures r == UndefinedCheck(variableAccesses, variables.variableToMatrix, matrixAccesses, 0)
    {
      for v := 0 to |variableAccesses|
        invariant UndefinedCheck(variableAccesses, variables.variableToMatrix, matrixAccesses, 0) ==
                  UndefinedCheck(variableAccesses, variables.variableToMatrix, matrixAccesses, v)
      {
        var matrixIndex := variables.GetMatrixForVariable(v);
        var isInput := matrixAccesses[matrixIndex].isInput;
        r := UndefinedCheckAt(variableAccesses[v], v, matrixIndex, isInput);
        if r.Fail? {
          return;
        }
      }
      return Pass;
    }

    /** No variable is written after it has been only read. */
    method CheckComputationRewrite() returns (r: Outcome)
      requires |variableAccesses| <= |variables.variableToMatrix|
      ensures r == RewriteCheck(variableAccesses, variables.variableToMatrix, 0)
    {
      for v := 0 to |variableAccesses|
        invariant RewriteCheck(variableAccesses, variables.variableToMatrix, 0) ==
                  RewriteCheck(variableAccesses, variables.variableToMatrix, v)
      {
        var matrixIndex := variables.GetMatrixForVariable(v);
        r := CheckVariableRewrite(variableAccesses[v], v, matrixIndex);
        if r.Fail? {
          return;
        }
      }
      return Pass;
    }

    /** Runs every check in the source's order and fills in the tables. */
    method Check() returns (r: Outcome)
      requires Valid()
      modifies this
      ensures Valid()
      ensures r == CheckSpec(checkRewrite, nnet, comp)
      ensures r.Pass? ==> Tables(nnet, comp) == (attributes, variableAccesses, Ok(matrixAccesses))
    {
      if analysis.Fail? {
        return analysis;
      }
      r := CheckComputationIndexes();
      if r.Fail? {
        return;
      }
      var attrs, va, accesses := ComputeTables();
      attributes := attrs;
      variableAccesses := va;
      if accesses.Err? {
        return Fail(accesses.message);
      }
      matrixAccesses := accesses.value;
      r := RunPasses();
    }

    /** The attributes of every command, then the accesses of every variable and of every
        matrix. */
    method ComputeTables() returns (attrs: seq<CommandAttributes>, va: seq<seq<Access>>,
                                    accesses: Result<seq<MatrixAccesses>>)
      requires Valid() && analysis.Pass? && CheckIndexes(nnet, comp).Pass?
      ensures Tables(nnet, comp) == (attrs, va, accesses)
    {
      var vi := variables.Info();
      AnalysisFeedsPasses(nnet, comp, vi);
      attrs := ComputeCommandAttributes(nnet, comp, variables);
      va := ComputeVariableAccesses(variables.numVariables, attrs);
      assert va == VariableAccessesSpec(attrs, vi.numVariables);
      accesses := ComputeMatrixAccesses(nnet, comp, variables, attrs);
    }

    /** The passes over the computed tables, stopping at the first failure. */
    method RunPasses() returns (r: Outcome)
      requires OwnersIndexed(variableAccesses, variables.variableToMatrix, matrixAccesses)
      ensures r == PassesCheck(checkRewrite, comp, variables.variableToMatrix, variableAccesses, matrixAccesses)
    {
      r := CheckComputationOrder();
      if r.Fail? {
        return;
      }
      r := CheckComputationMatrixAccesses();
      if r.Fail? {
        return;
      }
      r := CheckComputationUndefined();
      if r.Fail? || !checkRewrite {
        return;
      }
      r := CheckComputationRewrite();
    }
  }
}
