/** `ComputeCommandAttributes`: which variables each command reads and writes, and whether it
    has side effects (src/nnet3/nnet-analyze.cc). Each command is described by a table of
    sub-matrix accesses; recording the table through the variable analysis gives its
    attributes. */
module Attributes {
  import opened Sorted
  import opened Ir
  import opened NnetOracle
  import opened AccessTypes
  import opened Variables

  datatype SubmatrixAccess = SubmatrixAccess(submatrix: int, access: AccessType)

  function Props(nnet: Nnet, component: int): set<ComponentProperty>
    requires 0 <= component < |nnet.components|
  {
    nnet.components[component].properties
  }

  /** The sub-matrix indexes of `pairs` other than -1, in order of appearance. */
  function MultiSources(pairs: seq<(int, int)>): seq<int> {
    if pairs == [] then []
    else MultiSources(pairs[..|pairs| - 1]) +
         (if pairs[|pairs| - 1].0 != -1 then [pairs[|pairs| - 1].0] else [])
  }

  lemma {:induction false} MultiSourcesMembers(pairs: seq<(int, int)>)
    ensures forall x :: x in MultiSources(pairs) <==>
                        x != -1 && exists k :: 0 <= k < |pairs| && pairs[k].0 == x
  {
    if pairs != [] {
      var init := pairs[..|pairs| - 1];
      MultiSourcesMembers(init);
      forall x ensures x in MultiSources(pairs) <==> x != -1 && exists k :: 0 <= k < |pairs| && pairs[k].0 == x {
        if x != -1 && exists k :: 0 <= k < |pairs| && pairs[k].0 == x {
          var k :| 0 <= k < |pairs| && pairs[k].0 == x;
          if k < |pairs| - 1 {
            assert init[k].0 == x;
          }
        }
        if x in MultiSources(init) {
          var k :| 0 <= k < |init| && init[k].0 == x;
          assert pairs[k].0 == x;
        }
      }
    }
  }

  /** The distinct sub-matrices an `indexes_multi` list refers to, in increasing order. */
  function MultiTargets(pairs: seq<(int, int)>): (r: seq<int>)
    ensures StrictlySorted(r)
    ensures forall x :: x in r <==> x != -1 && exists k :: 0 <= k < |pairs| && pairs[k].0 == x
  {
    MultiSourcesMembers(pairs);
    SortAndUniq(MultiSources(pairs))
  }

  /** The sub-matrices a multi-row command names are in range when its pairs are. */
  lemma MultiTargetsInRange(pairs: seq<(int, int)>, n: int, access: AccessType)
    requires forall k :: 0 <= k < |pairs| ==> pairs[k].0 == -1 || 0 <= pairs[k].0 < n
    ensures forall k :: 0 <= k < |MultiTargets(pairs)| ==> 0 <= MultiTargets(pairs)[k] < n
    ensures forall k :: 0 <= k < |MultiTargets(pairs)| ==> 0 <= WithAccess(MultiTargets(pairs), access)[k].submatrix < n
  {
    var targets := MultiTargets(pairs);
    forall k | 0 <= k < |targets| ensures 0 <= targets[k] < n {
      assert targets[k] in targets;
    }
  }

  /** `IndexesMultiToSubmatrixIndexes`: collects the sub-matrix indexes, skipping -1 and
      repeats of the previous index, then sorts and deduplicates them. */
  method IndexesMultiToSubmatrixIndexes(pairs: seq<(int, int)>) returns (r: seq<int>)
    ensures r == MultiTargets(pairs)
    ensures StrictlySorted(r)
    ensures forall x :: x in r <==> x != -1 && exists k :: 0 <= k < |pairs| && pairs[k].0 == x
  {
    var pushed: seq<int> := [];
    var current := -1;
    for i := 0 to |pairs|
      invariant forall x :: x in pushed <==> x in MultiSources(pairs[..i])
      invariant current == -1 || current in pushed
    {
      var submatrix := pairs[i].0;
      assert pairs[..i + 1][..i] == pairs[..i];
      if submatrix != -1 && submatrix != current {
        current := submatrix;
        pushed := pushed + [submatrix];
      }
    }
    assert pairs[..|pairs|] == pairs;
    r := SortAndUniq(pushed);
    SortedUnique(r, MultiTargets(pairs));
    MultiSourcesMembers(pairs);
  }

  /** The lengths the analysis tables have once the variable analysis has run. */
  predicate ShapedFor(comp: Computation, vi: VarInfo) {
    |vi.variableRanges| == |comp.submatrices| && |vi.fullRowRange| == |comp.submatrices| &&
    |vi.matrixToVariableIndex| == |comp.matrices| + 1
  }

  /** Every operand the attribute computation looks up exists. */
  predicate CommandInRange(nnet: Nnet, comp: Computation, c: Command) {
    var ns := |comp.submatrices|;
    match c.commandType
    case ResizeMatrixZeroed => 0 <= c.arg1 < |comp.matrices|
    case Propagate =>
      0 <= c.arg1 < |nnet.components| && 0 <= c.arg3 < ns && 0 <= c.arg4 < ns
    case StoreStats => 0 <= c.arg2 < ns
    case Backprop =>
      0 <= c.arg2 < |nnet.components| &&
      0 <= c.arg4 < ns && 0 <= c.arg5 < ns && 0 <= c.arg6 < ns && 0 <= c.arg7 < ns
    case MatrixCopy => 0 <= c.arg1 < ns && 0 <= c.arg2 < ns
    case MatrixAdd => 0 <= c.arg1 < ns && 0 <= c.arg2 < ns
    case AddRows => 0 <= c.arg1 < ns && 0 <= c.arg2 < ns
    case AddRowRanges => 0 <= c.arg1 < ns && 0 <= c.arg2 < ns
    case CopyRows => 0 <= c.arg1 < ns && 0 <= c.arg2 < ns && 0 <= c.arg3 < |comp.indexes|
    case AddRowsMulti => MultiInRange(comp, c)
    case CopyRowsMulti => MultiInRange(comp, c)
    case AddToRowsMulti => MultiInRange(comp, c)
    case CopyToRowsMulti => MultiInRange(comp, c)
    case _ => true
  }

  predicate MultiInRange(comp: Computation, c: Command) {
    0 <= c.arg1 < |comp.submatrices| && 0 <= c.arg2 < |comp.indexesMulti| &&
    forall k :: 0 <= k < |comp.indexesMulti[c.arg2]| ==>
      comp.indexesMulti[c.arg2][k].0 == -1 || 0 <= comp.indexesMulti[c.arg2][k].0 < |comp.submatrices|
  }

  function WithAccess(submatrices: seq<int>, access: AccessType): (r: seq<SubmatrixAccess>)
    ensures |r| == |submatrices|
    ensures forall k :: 0 <= k < |r| ==> r[k] == SubmatrixAccess(submatrices[k], access)
  {
    seq(|submatrices|, k requires 0 <= k < |submatrices| => SubmatrixAccess(submatrices[k], access))
  }

  /** The sub-matrix accesses of a command, in the order they are recorded: a propagation reads
      its input and writes (or, if the component adds, reads and writes) its output; storing
      statistics reads the output; backprop reads input value, output value and output
      derivative and writes (or adds to) the input derivative; copies write and adds read-write
      their destination; a row copy whose indexes contain -1 keeps some destination rows, so it
      reads the destination too; the multi-sources commands read every source, and the
      multi-destination commands read-write every destination. */
  function AccessTable(nnet: Nnet, comp: Computation, c: Command): (r: seq<SubmatrixAccess>)
    requires CommandInRange(nnet, comp, c)
    ensures TableInRange(comp, r)
  {
    match c.commandType
    case Propagate =>
      [SubmatrixAccess(c.arg3, ReadAccess),
       SubmatrixAccess(c.arg4, if PropagateAdds in Props(nnet, c.arg1) then ReadWriteAccess else WriteAccess)]
    case StoreStats =>
      [SubmatrixAccess(c.arg2, ReadAccess)]
    case Backprop =>
      [SubmatrixAccess(c.arg4, ReadAccess), SubmatrixAccess(c.arg5, ReadAccess),
       SubmatrixAccess(c.arg6, ReadAccess),
       SubmatrixAccess(c.arg7, if BackpropAdds in Props(nnet, c.arg2) then ReadWriteAccess else WriteAccess)]
    case MatrixCopy =>
      [SubmatrixAccess(c.arg1, WriteAccess), SubmatrixAccess(c.arg2, ReadAccess)]
    case MatrixAdd =>
      [SubmatrixAccess(c.arg1, ReadWriteAccess), SubmatrixAccess(c.arg2, ReadAccess)]
    case AddRows =>
      [SubmatrixAccess(c.arg1, ReadWriteAccess), SubmatrixAccess(c.arg2, ReadAccess)]
    case CopyRows =>
      [SubmatrixAccess(c.arg1, if -1 in comp.indexes[c.arg3] then ReadWriteAccess else WriteAccess),
       SubmatrixAccess(c.arg2, ReadAccess)]
    case AddRowsMulti =>
      MultiTargetsInRange(comp.indexesMulti[c.arg2], |comp.submatrices|, ReadAccess);
      [SubmatrixAccess(c.arg1, ReadWriteAccess)] + WithAccess(MultiTargets(comp.indexesMulti[c.arg2]), ReadAccess)
    case CopyRowsMulti =>
      MultiTargetsInRange(comp.indexesMulti[c.arg2], |comp.submatrices|, ReadAccess);
      [SubmatrixAccess(c.arg1, WriteAccess)] + WithAccess(MultiTargets(comp.indexesMulti[c.arg2]), ReadAccess)
    case AddToRowsMulti =>
      MultiTargetsInRange(comp.indexesMulti[c.arg2], |comp.submatrices|, ReadWriteAccess);
      [SubmatrixAccess(c.arg1, ReadAccess)] + WithAccess(MultiTargets(comp.indexesMulti[c.arg2]), ReadWriteAccess)
    case CopyToRowsMulti =>
      MultiTargetsInRange(comp.indexesMulti[c.arg2], |comp.submatrices|, ReadWriteAccess);
      [SubmatrixAccess(c.arg1, ReadAccess)] + WithAccess(MultiTargets(comp.indexesMulti[c.arg2]), ReadWriteAccess)
    case AddRowRanges =>
      [SubmatrixAccess(c.arg1, ReadWriteAccess), SubmatrixAccess(c.arg2, ReadAccess)]
    case _ => []
  }

  predicate TableInRange(comp: Computation, table: seq<SubmatrixAccess>) {
    forall k :: 0 <= k < |table| ==> 0 <= table[k].submatrix < |comp.submatrices|
  }

  /** Records the accesses of `table` in order. */
  function RecordAll(vi: VarInfo, attributes: CommandAttributes, table: seq<SubmatrixAccess>): (r: CommandAttributes)
    requires forall k :: 0 <= k < |table| ==> 0 <= table[k].submatrix < |vi.variableRanges|
    requires forall k :: 0 <= k < |table| ==> table[k].access == WriteAccess ==> table[k].submatrix < |vi.fullRowRange|
    ensures r.hasSideEffects == attributes.hasSideEffects
    decreases |table|
  {
    if table == [] then attributes
    else RecordAll(vi, Record(vi, attributes, table[0].submatrix, table[0].access), table[1..])
  }

  /** Recording a two-entry table records its entries in order. */
  lemma RecordPair(vi: VarInfo, attributes: CommandAttributes, a: SubmatrixAccess, b: SubmatrixAccess)
    requires |vi.fullRowRange| == |vi.variableRanges|
    requires 0 <= a.submatrix < |vi.variableRanges| && 0 <= b.submatrix < |vi.variableRanges|
    ensures RecordAll(vi, attributes, [a, b]) ==
            Record(vi, Record(vi, attributes, a.submatrix, a.access), b.submatrix, b.access)
  {
    var first := Record(vi, attributes, a.submatrix, a.access);
    assert [a, b][0] == a && [a, b][1..] == [b];
    assert RecordAll(vi, attributes, [a, b]) == RecordAll(vi, first, [b]);
    assert [b][0] == b && [b][1..] == [];
    assert RecordAll(vi, first, [b]) == RecordAll(vi, Record(vi, first, b.submatrix, b.access), []);
  }

  /** Recording a four-entry table records its entries in order. */
  lemma RecordFour(vi: VarInfo, attributes: CommandAttributes, t: seq<SubmatrixAccess>)
    requires |vi.fullRowRange| == |vi.variableRanges| && |t| == 4
    requires forall k :: 0 <= k < 4 ==> 0 <= t[k].submatrix < |vi.variableRanges|
    ensures RecordAll(vi, attributes, t) ==
            Record(vi, Record(vi, Record(vi, Record(vi, attributes, t[0].submatrix, t[0].access),
                                         t[1].submatrix, t[1].access), t[2].submatrix, t[2].access),
                   t[3].submatrix, t[3].access)
  {
    var first := Record(vi, attributes, t[0].submatrix, t[0].access);
    assert RecordAll(vi, attributes, t) == RecordAll(vi, first, t[1..]);
    RecordAllAppend(vi, first, t[1..3], t[3]);
    assert t[1..] == t[1..3] + [t[3]];
    RecordPair(vi, first, t[1], t[2]);
    assert t[1..3] == [t[1], t[2]];
  }

  lemma {:induction false} RecordAllAppend(vi: VarInfo, attributes: CommandAttributes, table: seq<SubmatrixAccess>, a: SubmatrixAccess)
    requires |vi.fullRowRange| == |vi.variableRanges|
    requires forall k :: 0 <= k < |table| ==> 0 <= table[k].submatrix < |vi.variableRanges|
    requires 0 <= a.submatrix < |vi.variableRanges|
    ensures RecordAll(vi, attributes, table + [a]) == Record(vi, RecordAll(vi, attributes, table), a.submatrix, a.access)
    decreases |table|
  {
    if table != [] {
      assert (table + [a])[1..] == table[1..] + [a];
      RecordAllAppend(vi, Record(vi, attributes, table[0].submatrix, table[0].access), table[1..], a);
    }
  }

  /** Variable `v` is read through access `a`: a read or read-write access, or a write to a view
      that does not span all rows. */
  predicate ReadsVariable(vi: VarInfo, a: SubmatrixAccess, v: int)
    requires 0 <= a.submatrix < |vi.variableRanges| == |vi.fullRowRange|
  {
    (a.access != WriteAccess || !vi.fullRowRange[a.submatrix]) &&
    vi.variableRanges[a.submatrix].0 <= v < vi.variableRanges[a.submatrix].1
  }

  /** Variable `v` is written through access `a`: a write or read-write access. */
  predicate WritesVariable(vi: VarInfo, a: SubmatrixAccess, v: int)
    requires 0 <= a.submatrix < |vi.variableRanges|
  {
    a.access != ReadAccess &&
    vi.variableRanges[a.submatrix].0 <= v < vi.variableRanges[a.submatrix].1
  }

  lemma {:induction false} RecordAllMembers(vi: VarInfo, attributes: CommandAttributes, table: seq<SubmatrixAccess>)
    requires |vi.fullRowRange| == |vi.variableRanges|
    requires forall k :: 0 <= k < |table| ==> 0 <= table[k].submatrix < |vi.variableRanges|
    ensures var r := RecordAll(vi, attributes, table);
            r.hasSideEffects == attributes.hasSideEffects &&
            (forall v :: v in r.variablesRead <==>
               v in attributes.variablesRead || exists k :: 0 <= k < |table| && ReadsVariable(vi, table[k], v)) &&
            (forall v :: v in r.variablesWritten <==>
               v in attributes.variablesWritten || exists k :: 0 <= k < |table| && WritesVariable(vi, table[k], v))
    decreases |table|
  {
    if table != [] {
      var a := table[0];
      var next := Record(vi, attributes, a.submatrix, a.access);
      IntervalMembers(vi.variableRanges[a.submatrix].0, vi.variableRanges[a.submatrix].1);
      assert forall v :: v in next.variablesRead <==> v in attributes.variablesRead || ReadsVariable(vi, a, v);
      assert forall v :: v in next.variablesWritten <==> v in attributes.variablesWritten || WritesVariable(vi, a, v);
      RecordAllMembers(vi, next, table[1..]);
      forall v ensures (exists k :: 0 <= k < |table| && ReadsVariable(vi, table[k], v)) <==>
                       ReadsVariable(vi, a, v) || exists k :: 0 <= k < |table[1..]| && ReadsVariable(vi, table[1..][k], v)
      {
        if exists k :: 0 <= k < |table| && ReadsVariable(vi, table[k], v) {
          var k :| 0 <= k < |table| && ReadsVariable(vi, table[k], v);
          if k > 0 {
            assert table[1..][k - 1] == table[k];
          }
        }
        if exists k :: 0 <= k < |table[1..]| && ReadsVariable(vi, table[1..][k], v) {
          var k :| 0 <= k < |table[1..]| && ReadsVariable(vi, table[1..][k], v);
          assert table[k + 1] == table[1..][k];
        }
      }
      forall v ensures (exists k :: 0 <= k < |table| && WritesVariable(vi, table[k], v)) <==>
                       WritesVariable(vi, a, v) || exists k :: 0 <= k < |table[1..]| && WritesVariable(vi, table[1..][k], v)
      {
        if exists k :: 0 <= k < |table| && WritesVariable(vi, table[k], v) {
          var k :| 0 <= k < |table| && WritesVariable(vi, table[k], v);
          if k > 0 {
            assert table[1..][k - 1] == table[k];
          }
        }
        if exists k :: 0 <= k < |table[1..]| && WritesVariable(vi, table[1..][k], v) {
          var k :| 0 <= k < |table[1..]| && WritesVariable(vi, table[1..][k], v);
          assert table[k + 1] == table[1..][k];
        }
      }
    }
  }

  /** Only a backprop through an updatable component has side effects. */
  predicate SideEffects(nnet: Nnet, c: Command) {
    c.commandType == Backprop && 0 <= c.arg2 < |nnet.components| && UpdatableComponent in Props(nnet, c.arg2)
  }

  /** The attributes of one command: its table recorded through the variable analysis (a
      zeroing resize writes every variable of its matrix instead), with both lists sorted and
      free of duplicates. */
  function AttributesOf(nnet: Nnet, comp: Computation, vi: VarInfo, c: Command): CommandAttributes
    requires ShapedFor(comp, vi) && CommandInRange(nnet, comp, c)
  {
    var recorded := RecordAll(vi, NoAttributes, AccessTable(nnet, comp, c));
    var written :=
      if c.commandType == ResizeMatrixZeroed
      then Interval(vi.matrixToVariableIndex[c.arg1], vi.matrixToVariableIndex[c.arg1 + 1])
      else recorded.variablesWritten;
    CommandAttributes(SortAndUniq(recorded.variablesRead), SortAndUniq(written), SideEffects(nnet, c))
  }

  /** Records every sub-matrix of `submatrices` with the same access, in order. */
  method RecordEach(vars: ComputationVariables, submatrices: seq<int>, access: AccessType,
                    attributes: CommandAttributes) returns (r: CommandAttributes)
    requires |vars.fullRowRange| == |vars.variableRanges|
    requires forall k :: 0 <= k < |submatrices| ==> 0 <= submatrices[k] < |vars.variableRanges|
    ensures r == RecordAll(vars.Info(), attributes, WithAccess(submatrices, access))
  {
    r := attributes;
    for i := 0 to |submatrices|
      invariant r == RecordAll(vars.Info(), attributes, WithAccess(submatrices[..i], access))
    {
      assert WithAccess(submatrices[..i + 1], access) ==
             WithAccess(submatrices[..i], access) + [SubmatrixAccess(submatrices[i], access)];
      RecordAllAppend(vars.Info(), attributes, WithAccess(submatrices[..i], access),
                      SubmatrixAccess(submatrices[i], access));
      r := vars.RecordAccessForSubmatrix(submatrices[i], access, r);
    }
    assert submatrices[..|submatrices|] == submatrices;
  }

  /** Records the access to `first`, then those of a multi-row command's sub-matrices. */
  method RecordMulti(vars: ComputationVariables, comp: Computation, first: SubmatrixAccess,
                     pairs: seq<(int, int)>, access: AccessType) returns (r: CommandAttributes)
    requires ShapedFor(comp, vars.Info()) && 0 <= first.submatrix < |comp.submatrices|
    requires forall k :: 0 <= k < |pairs| ==> pairs[k].0 == -1 || 0 <= pairs[k].0 < |comp.submatrices|
    ensures forall k :: 0 <= k < |MultiTargets(pairs)| ==> 0 <= MultiTargets(pairs)[k] < |comp.submatrices|
    ensures r == RecordAll(vars.Info(), NoAttributes, [first] + WithAccess(MultiTargets(pairs), access))
  {
    MultiTargetsInRange(pairs, |comp.submatrices|, access);
    r := vars.RecordAccessForSubmatrix(first.submatrix, first.access, NoAttributes);
    var targets := IndexesMultiToSubmatrixIndexes(pairs);
    r := RecordEach(vars, targets, access, r);
    var table := [first] + WithAccess(targets, access);
    assert table[0] == first && table[1..] == WithAccess(targets, access);
  }

  /** The accesses of a command other than a zeroing resize, recorded the way the source's
      switch does, with the side-effect flag of a backprop. */
  method RecordCommand(nnet: Nnet, comp: Computation, vars: ComputationVariables, c: Command)
    returns (attr: CommandAttributes)
    requires ShapedFor(comp, vars.Info()) && CommandInRange(nnet, comp, c)
    requires c.commandType != ResizeMatrixZeroed
    ensures attr == RecordAll(vars.Info(), NoAttributes, AccessTable(nnet, comp, c)).(hasSideEffects := SideEffects(nnet, c))
  {
    attr := NoAttributes;
    match c.commandType {
      case ResizeMatrixZeroed =>
        assert false;
      case Propagate =>
        attr := vars.RecordAccessForSubmatrix(c.arg3, ReadAccess, attr);
        if PropagateAdds in nnet.components[c.arg1].properties {
          attr := vars.RecordAccessForSubmatrix(c.arg4, ReadWriteAccess, attr);
        } else {
          attr := vars.RecordAccessForSubmatrix(c.arg4, WriteAccess, attr);
        }
        RecordPair(vars.Info(), NoAttributes, AccessTable(nnet, comp, c)[0], AccessTable(nnet, comp, c)[1]);
      case StoreStats =>
        attr := vars.RecordAccessForSubmatrix(c.arg2, ReadAccess, attr);
      case Backprop =>
        attr := vars.RecordAccessForSubmatrix(c.arg4, ReadAccess, attr);
        attr := vars.RecordAccessForSubmatrix(c.arg5, ReadAccess, attr);
        attr := vars.RecordAccessForSubmatrix(c.arg6, ReadAccess, attr);
        if BackpropAdds in nnet.components[c.arg2].properties {
          attr := vars.RecordAccessForSubmatrix(c.arg7, ReadWriteAccess, attr);
        } else {
          attr := vars.RecordAccessForSubmatrix(c.arg7, WriteAccess, attr);
        }
        if UpdatableComponent in nnet.components[c.arg2].properties {
          attr := attr.(hasSideEffects := true);
        }
        RecordFour(vars.Info(), NoAttributes, AccessTable(nnet, comp, c));
      case MatrixCopy =>
        attr := vars.RecordAccessForSubmatrix(c.arg1, WriteAccess, attr);
        attr := vars.RecordAccessForSubmatrix(c.arg2, ReadAccess, attr);
        RecordPair(vars.Info(), NoAttributes, SubmatrixAccess(c.arg1, WriteAccess), SubmatrixAccess(c.arg2, ReadAccess));
      case MatrixAdd =>
        attr := vars.RecordAccessForSubmatrix(c.arg1, ReadWriteAccess, attr);
        attr := vars.RecordAccessForSubmatrix(c.arg2, ReadAccess, attr);
        RecordPair(vars.Info(), NoAttributes, SubmatrixAccess(c.arg1, ReadWriteAccess), SubmatrixAccess(c.arg2, ReadAccess));
      case AddRows =>
        attr := vars.RecordAccessForSubmatrix(c.arg1, ReadWriteAccess, attr);
        attr := vars.RecordAccessForSubmatrix(c.arg2, ReadAccess, attr);
        RecordPair(vars.Info(), NoAttributes, SubmatrixAccess(c.arg1, ReadWriteAccess), SubmatrixAccess(c.arg2, ReadAccess));
      case CopyRows =>
        // a -1 leaves that row of the destination as it was, so the destination is also read
        if -1 in comp.indexes[c.arg3] {
          attr := vars.RecordAccessForSubmatrix(c.arg1, ReadWriteAccess, attr);
        } else {
          attr := vars.RecordAccessForSubmatrix(c.arg1, WriteAccess, attr);
        }
        attr := vars.RecordAccessForSubmatrix(c.arg2, ReadAccess, attr);
        RecordPair(vars.Info(), NoAttributes, AccessTable(nnet, comp, c)[0], AccessTable(nnet, comp, c)[1]);
      case AddRowsMulti =>
        attr := RecordMulti(vars, comp, SubmatrixAccess(c.arg1, ReadWriteAccess), comp.indexesMulti[c.arg2], ReadAccess);
      case CopyRowsMulti =>
        attr := RecordMulti(vars, comp, SubmatrixAccess(c.arg1, WriteAccess), comp.indexesMulti[c.arg2], ReadAccess);
      case AddToRowsMulti =>
        attr := RecordMulti(vars, comp, SubmatrixAccess(c.arg1, ReadAccess), comp.indexesMulti[c.arg2], ReadWriteAccess);
      case CopyToRowsMulti =>
        attr := RecordMulti(vars, comp, SubmatrixAccess(c.arg1, ReadAccess), comp.indexesMulti[c.arg2], ReadWriteAccess);
      case AddRowRanges =>
        attr := vars.RecordAccessForSubmatrix(c.arg1, ReadWriteAccess, attr);
        attr := vars.RecordAccessForSubmatrix(c.arg2, ReadAccess, attr);
        RecordPair(vars.Info(), NoAttributes, SubmatrixAccess(c.arg1, ReadWriteAccess), SubmatrixAccess(c.arg2, ReadAccess));
      case ResizeMatrixUndefined =>
      case ResizeMatrixEmpty =>
      case NoOperation =>
      case NoOperationMarker =>
    }
  }

  /** The attributes of one command: a zeroing resize writes its whole matrix, every other
      command records its accesses; both lists are then sorted and deduplicated. */
  method AttributesOfCommand(nnet: Nnet, comp: Computation, vars: ComputationVariables, k: nat)
    returns (attr: CommandAttributes)
    requires ShapedFor(comp, vars.Info()) && k < |comp.commands|
    requires forall j :: 0 <= j < |comp.commands| ==> CommandInRange(nnet, comp, comp.commands[j])
    ensures attr == AttributesOf(nnet, comp, vars.Info(), comp.commands[k])
  {
    var c := comp.commands[k];
    assert CommandInRange(nnet, comp, c);
    if c.commandType == ResizeMatrixZeroed {
      var written := vars.AppendVariablesForMatrix(c.arg1, []);
      attr := NoAttributes.(variablesWritten := written);
      assert written == Interval(vars.matrixToVariableIndex[c.arg1], vars.matrixToVariableIndex[c.arg1 + 1]);
    } else {
      attr := RecordCommand(nnet, comp, vars, c);
    }
    attr := attr.(variablesRead := SortAndUniq(attr.variablesRead),
                  variablesWritten := SortAndUniq(attr.variablesWritten));
  }

  /** The attributes of every command, in order. */
  function AttributesSpec(nnet: Nnet, comp: Computation, vi: VarInfo): (r: seq<CommandAttributes>)
    requires ShapedFor(comp, vi)
    requires forall k :: 0 <= k < |comp.commands| ==> CommandInRange(nnet, comp, comp.commands[k])
    ensures |r| == |comp.commands|
    ensures forall k :: 0 <= k < |r| ==> r[k] == AttributesOf(nnet, comp, vi, comp.commands[k])
  {
    seq(|comp.commands|, k requires 0 <= k < |comp.commands| => AttributesOf(nnet, comp, vi, comp.commands[k]))
  }

  /** The first `n` entries of `attributes` are those of the first `n` commands. */
  predicate AttributesAgree(nnet: Nnet, comp: Computation, vi: VarInfo, attributes: seq<CommandAttributes>, n: nat)
    requires ShapedFor(comp, vi)
    requires forall k :: 0 <= k < |comp.commands| ==> CommandInRange(nnet, comp, comp.commands[k])
    requires n <= |attributes| && n <= |comp.commands|
  {
    forall j :: 0 <= j < n ==> attributes[j] == AttributesSpec(nnet, comp, vi)[j]
  }

  /** `ComputeCommandAttributes`: the attributes of every command, in order. */
  method ComputeCommandAttributes(nnet: Nnet, comp: Computation, vars: ComputationVariables)
    returns (attributes: seq<CommandAttributes>)
    requires ShapedFor(comp, vars.Info())
    requires forall k :: 0 <= k < |comp.commands| ==> CommandInRange(nnet, comp, comp.commands[k])
    ensures attributes == AttributesSpec(nnet, comp, vars.Info())
  {
    ghost var vi := vars.Info();
    attributes := seq(|comp.commands|, _ => NoAttributes);
    for k := 0 to |comp.commands|
      invariant |attributes| == |comp.commands|
      invariant AttributesAgree(nnet, comp, vi, attributes, k)
    {
      var attr := AttributesOfCommand(nnet, comp, vars, k);
      attributes := attributes[k := attr];
    }
  }

  /** The analysis of a computation has the table lengths the attribute computation needs. */
  lemma DescribedIsShaped(comp: Computation, vi: VarInfo)
    requires Indexable(comp) && Describes(comp, vi)
    ensures ShapedFor(comp, vi)
  {
  }

  /** What a command reads and writes, variable by variable: both lists are sorted and
      duplicate-free, a variable is read exactly when some access of the command reads it (a
      write to a view that does not span all rows counts as a read), written exactly when some
      access writes it, and only a backprop through an updatable component has side effects. */
  lemma AttributesCharacterised(nnet: Nnet, comp: Computation, vi: VarInfo, c: Command)
    requires ShapedFor(comp, vi) && CommandInRange(nnet, comp, c)
    requires c.commandType != ResizeMatrixZeroed
    ensures var attr := AttributesOf(nnet, comp, vi, c);
            var table := AccessTable(nnet, comp, c);
            StrictlySorted(attr.variablesRead) && StrictlySorted(attr.variablesWritten) &&
            (forall v :: v in attr.variablesRead <==> exists k :: 0 <= k < |table| && ReadsVariable(vi, table[k], v)) &&
            (forall v :: v in attr.variablesWritten <==> exists k :: 0 <= k < |table| && WritesVariable(vi, table[k], v)) &&
            (attr.hasSideEffects <==>
               c.commandType == Backprop && UpdatableComponent in nnet.components[c.arg2].properties)
  {
    RecordAllMembers(vi, NoAttributes, AccessTable(nnet, comp, c));
  }

  /** A zeroing resize reads nothing and writes exactly the variables of its matrix, of which
      there is at least one. */
  lemma ResizeZeroedWritesItsMatrix(nnet: Nnet, comp: Computation, vi: VarInfo, c: Command)
    requires ShapedFor(comp, vi) && SplitShaped(vi.splitPoints) && |vi.splitPoints| == |comp.matrices|
    requires vi.matrixToVariableIndex == Offsets(vi.splitPoints)
    requires c.commandType == ResizeMatrixZeroed && 1 <= c.arg1 < |comp.matrices|
    ensures var attr := AttributesOf(nnet, comp, vi, c);
            attr.variablesRead == [] && !attr.hasSideEffects &&
            attr.variablesWritten != [] &&
            forall v :: v in attr.variablesWritten <==> OwnsVariable(vi, c.arg1, v)
  {
    var attr := AttributesOf(nnet, comp, vi, c);
    var lo := vi.matrixToVariableIndex[c.arg1];
    var hi := vi.matrixToVariableIndex[c.arg1 + 1];
    ZeroedAttributes(nnet, comp, vi, c);
    assert lo == VariableOffset(vi.splitPoints, c.arg1) && hi == VariableOffset(vi.splitPoints, c.arg1 + 1);
    OffsetsIncrease(vi.splitPoints, c.arg1, c.arg1 + 1);
    IntervalMembers(lo, hi);
    assert lo in attr.variablesWritten;
  }

  /** A zeroing resize records no access: it reads nothing, has no side effects and writes the
      block of variables between its matrix's offsets. */
  lemma ZeroedAttributes(nnet: Nnet, comp: Computation, vi: VarInfo, c: Command)
    requires ShapedFor(comp, vi) && CommandInRange(nnet, comp, c) && c.commandType == ResizeMatrixZeroed
    ensures var lo := vi.matrixToVariableIndex[c.arg1];
            var hi := vi.matrixToVariableIndex[c.arg1 + 1];
            AttributesOf(nnet, comp, vi, c) == CommandAttributes([], SortAndUniq(Interval(lo, hi)), false)
  {
    assert AccessTable(nnet, comp, c) == [];
  }

  predicate InRange(vi: VarInfo, i: int, v: int)
    requires 0 <= i < |vi.variableRanges|
  {
    vi.variableRanges[i].0 <= v < vi.variableRanges[i].1
  }

  /** Views of two different matrices share no variable. */
  lemma DistinctMatricesDisjoint(comp: Computation, vi: VarInfo, i: int, j: int, v: int)
    requires Indexable(comp) && SplitShaped(vi.splitPoints)
    requires 1 <= i < |comp.submatrices| && 1 <= j < |comp.submatrices|
    requires RangeDescribes(comp, vi, i) && RangeDescribes(comp, vi, j)
    requires comp.submatrices[i].matrixIndex != comp.submatrices[j].matrixIndex
    requires InRange(vi, i, v)
    ensures !InRange(vi, j, v)
  {
    var mi := comp.submatrices[i].matrixIndex;
    var mj := comp.submatrices[j].matrixIndex;
    if mi < mj {
      OffsetsIncrease(vi.splitPoints, mi + 1, mj);
    } else {
      OffsetsIncrease(vi.splitPoints, mj + 1, mi);
    }
  }

  /** When only entry `d` of a table touches `v`, that entry alone decides whether `v` is read
      and whether it is written. */
  lemma EntryDecides(vi: VarInfo, table: seq<SubmatrixAccess>, d: int, v: int)
    requires |vi.fullRowRange| == |vi.variableRanges|
    requires forall k :: 0 <= k < |table| ==> 0 <= table[k].submatrix < |vi.variableRanges|
    requires 0 <= d < |table|
    requires forall k :: 0 <= k < |table| && k != d ==> !InRange(vi, table[k].submatrix, v)
    ensures (exists k :: 0 <= k < |table| && ReadsVariable(vi, table[k], v)) <==> ReadsVariable(vi, table[d], v)
    ensures (exists k :: 0 <= k < |table| && WritesVariable(vi, table[k], v)) <==> WritesVariable(vi, table[d], v)
  {
  }

  /** Row copy: every variable of the destination is written, and it is also read exactly when
      the index list holds a -1 (a row left as it was) or the destination does not span all rows
      of its matrix; the source is only read. */
  lemma CopyRowsDestination(nnet: Nnet, comp: Computation, vi: VarInfo, c: Command, v: int)
    requires Indexable(comp) && ShapedFor(comp, vi) && SplitShaped(vi.splitPoints)
    requires c.commandType == CopyRows && CommandInRange(nnet, comp, c)
    requires 1 <= c.arg1 && 1 <= c.arg2 && RangeDescribes(comp, vi, c.arg1) && RangeDescribes(comp, vi, c.arg2)
    requires InRange(vi, c.arg1, v) && !InRange(vi, c.arg2, v)
    ensures var attr := AttributesOf(nnet, comp, vi, c);
            var s := comp.submatrices[c.arg1];
            v in attr.variablesWritten &&
            (v in attr.variablesRead <==>
               -1 in comp.indexes[c.arg3] || !(s.rowOffset == 0 && s.numRows == comp.matrices[s.matrixIndex].numRows))
  {
    AttributesCharacterised(nnet, comp, vi, c);
    EntryDecides(vi, AccessTable(nnet, comp, c), 0, v);
  }

  /** Propagation: the input's variables are read and not written; the output's are written,
      and read as well exactly when the component adds to its output or the output does not
      span all rows of its matrix. */
  lemma PropagateAccesses(nnet: Nnet, comp: Computation, vi: VarInfo, c: Command, u: int, v: int)
    requires Indexable(comp) && ShapedFor(comp, vi) && SplitShaped(vi.splitPoints)
    requires c.commandType == Propagate && CommandInRange(nnet, comp, c)
    requires 1 <= c.arg3 && 1 <= c.arg4 && RangeDescribes(comp, vi, c.arg3) && RangeDescribes(comp, vi, c.arg4)
    requires InRange(vi, c.arg3, u) && !InRange(vi, c.arg4, u)
    requires InRange(vi, c.arg4, v) && !InRange(vi, c.arg3, v)
    ensures var attr := AttributesOf(nnet, comp, vi, c);
            var s := comp.submatrices[c.arg4];
            u in attr.variablesRead && u !in attr.variablesWritten &&
            v in attr.variablesWritten &&
            (v in attr.variablesRead <==>
               PropagateAdds in nnet.components[c.arg1].properties ||
               !(s.rowOffset == 0 && s.numRows == comp.matrices[s.matrixIndex].numRows))
  {
    PropagateInputAccess(nnet, comp, vi, c, u);
    PropagateOutputAccess(nnet, comp, vi, c, v);
  }

  lemma PropagateInputAccess(nnet: Nnet, comp: Computation, vi: VarInfo, c: Command, u: int)
    requires Indexable(comp) && ShapedFor(comp, vi) && SplitShaped(vi.splitPoints)
    requires c.commandType == Propagate && CommandInRange(nnet, comp, c)
    requires 1 <= c.arg3 && 1 <= c.arg4 && RangeDescribes(comp, vi, c.arg3) && RangeDescribes(comp, vi, c.arg4)
    requires InRange(vi, c.arg3, u) && !InRange(vi, c.arg4, u)
    ensures u in AttributesOf(nnet, comp, vi, c).variablesRead
    ensures u !in AttributesOf(nnet, comp, vi, c).variablesWritten
  {
    AttributesCharacterised(nnet, comp, vi, c);
    EntryDecides(vi, AccessTable(nnet, comp, c), 0, u);
  }

  lemma PropagateOutputAccess(nnet: Nnet, comp: Computation, vi: VarInfo, c: Command, v: int)
    requires Indexable(comp) && ShapedFor(comp, vi) && SplitShaped(vi.splitPoints)
    requires c.commandType == Propagate && CommandInRange(nnet, comp, c)
    requires 1 <= c.arg3 && 1 <= c.arg4 && RangeDescribes(comp, vi, c.arg3) && RangeDescribes(comp, vi, c.arg4)
    requires InRange(vi, c.arg4, v) && !InRange(vi, c.arg3, v)
    ensures var attr := AttributesOf(nnet, comp, vi, c);
            var s := comp.submatrices[c.arg4];
            v in attr.variablesWritten &&
            (v in attr.variablesRead <==>
               PropagateAdds in nnet.components[c.arg1].properties ||
               !(s.rowOffset == 0 && s.numRows == comp.matrices[s.matrixIndex].numRows))
  {
    AttributesCharacterised(nnet, comp, vi, c);
    EntryDecides(vi, AccessTable(nnet, comp, c), 1, v);
  }

  /** Backprop: the input derivative's variables are written, and read as well exactly when the
      component adds to it or it does not span all rows of its matrix; a backprop has side
      effects exactly when its component is updatable. */
  lemma BackpropAccesses(nnet: Nnet, comp: Computation, vi: VarInfo, c: Command, v: int)
    requires Indexable(comp) && ShapedFor(comp, vi) && SplitShaped(vi.splitPoints)
    requires c.commandType == Backprop && CommandInRange(nnet, comp, c)
    requires 1 <= c.arg7 && RangeDescribes(comp, vi, c.arg7) && InRange(vi, c.arg7, v)
    requires forall a :: a in {c.arg4, c.arg5, c.arg6} ==> !InRange(vi, a, v)
    ensures var attr := AttributesOf(nnet, comp, vi, c);
            var s := comp.submatrices[c.arg7];
            v in attr.variablesWritten &&
            (v in attr.variablesRead <==>
               BackpropAdds in nnet.components[c.arg2].properties ||
               !(s.rowOffset == 0 && s.numRows == comp.matrices[s.matrixIndex].numRows)) &&
            (attr.hasSideEffects <==> UpdatableComponent in nnet.components[c.arg2].properties)
  {
    AttributesCharacterised(nnet, comp, vi, c);
    EntryDecides(vi, AccessTable(nnet, comp, c), 3, v);
  }

  /** Multi-row commands: every variable of a sub-matrix named in the pairs is read, and for
      the commands that write into those sub-matrices it is written as well. */
  lemma MultiTargetsAccessed(nnet: Nnet, comp: Computation, vi: VarInfo, c: Command, k: int, v: int)
    requires ShapedFor(comp, vi) && CommandInRange(nnet, comp, c)
    requires c.commandType in {AddRowsMulti, CopyRowsMulti, AddToRowsMulti, CopyToRowsMulti}
    requires 0 <= k < |comp.indexesMulti[c.arg2]| && comp.indexesMulti[c.arg2][k].0 != -1
    requires InRange(vi, comp.indexesMulti[c.arg2][k].0, v)
    ensures var attr := AttributesOf(nnet, comp, vi, c);
            v in attr.variablesRead &&
            (c.commandType in {AddToRowsMulti, CopyToRowsMulti} ==> v in attr.variablesWritten)
  {
    AttributesCharacterised(nnet, comp, vi, c);
    var pairs := comp.indexesMulti[c.arg2];
    var targets := MultiTargets(pairs);
    var x := pairs[k].0;
    assert x in targets;
    var j :| 0 <= j < |targets| && targets[j] == x;
    var table := AccessTable(nnet, comp, c);
    assert table[j + 1].submatrix == x;
    assert ReadsVariable(vi, table[j + 1], v);
    if c.commandType in {AddToRowsMulti, CopyToRowsMulti} {
      assert WritesVariable(vi, table[j + 1], v);
    }
  }

  /** Multi-row copy: the destination is a plain write, so a destination variable that no
      source shares is written, and read only when the destination does not span all rows. */
  lemma CopyRowsMultiDestination(nnet: Nnet, comp: Computation, vi: VarInfo, c: Command, v: int)
    requires Indexable(comp) && ShapedFor(comp, vi)
    requires c.commandType == CopyRowsMulti && CommandInRange(nnet, comp, c)
    requires 1 <= c.arg1 && RangeDescribes(comp, vi, c.arg1) && InRange(vi, c.arg1, v)
    requires forall k :: 0 <= k < |comp.indexesMulti[c.arg2]| && comp.indexesMulti[c.arg2][k].0 != -1 ==>
               !InRange(vi, comp.indexesMulti[c.arg2][k].0, v)
    ensures var attr := AttributesOf(nnet, comp, vi, c);
            var s := comp.submatrices[c.arg1];
            v in attr.variablesWritten &&
            (v in attr.variablesRead <==> !(s.rowOffset == 0 && s.numRows == comp.matrices[s.matrixIndex].numRows))
  {
    var pairs := comp.indexesMulti[c.arg2];
    var targets := MultiTargets(pairs);
    var table := AccessTable(nnet, comp, c);
    assert table == [SubmatrixAccess(c.arg1, WriteAccess)] + WithAccess(targets, ReadAccess);
    forall j | 1 <= j < |table| ensures !InRange(vi, table[j].submatrix, v) {
      var x := targets[j - 1];
      assert table[j].submatrix == x;
      assert x in targets;
      var k :| 0 <= k < |pairs| && pairs[k].0 == x;
    }
    EntryDecides(vi, table, 0, v);
    AttributesCharacterised(nnet, comp, vi, c);
  }

  // ---------------------------------------------------------------------------------------
  // The propagate, store-stats and backprop cases as the source writes them
  // (src/nnet3/nnet-analyze.cc:229-245). `AccessTable` above records what the command
  // layout means; the members below record the operands the source names.

  /** The operands the as-written cases look up. */
  predicate CommandInRangeAsWritten(nnet: Nnet, comp: Computation, c: Command) {
    var ns := |comp.submatrices|;
    match c.commandType
    case Propagate => 0 <= c.arg1 < |nnet.components| && 0 <= c.arg2 < ns && 0 <= c.arg3 < ns
    case StoreStats => 0 <= c.arg2 < ns && BackpropInRangeAsWritten(nnet, comp, c)
    case Backprop => BackpropInRangeAsWritten(nnet, comp, c)
    case _ => CommandInRange(nnet, comp, c)
  }

  predicate BackpropInRangeAsWritten(nnet: Nnet, comp: Computation, c: Command) {
    var ns := |comp.submatrices|;
    0 <= c.arg1 < |nnet.components| && 0 <= c.arg2 < |nnet.components| &&
    0 <= c.arg4 < ns && 0 <= c.arg5 < ns && 0 <= c.arg6 < ns && 0 <= c.arg7 < ns
  }

  /** The backprop case as written: the adds flag is taken from component `arg1`, which is the
      node index. */
  function BackpropTableAsWritten(nnet: Nnet, c: Command): seq<SubmatrixAccess>
    requires 0 <= c.arg1 < |nnet.components|
  {
    [SubmatrixAccess(c.arg4, ReadAccess), SubmatrixAccess(c.arg5, ReadAccess),
     SubmatrixAccess(c.arg6, ReadAccess),
     SubmatrixAccess(c.arg7, if BackpropAdds in Props(nnet, c.arg1) then ReadWriteAccess else WriteAccess)]
  }

  /** The accesses as written: a propagation reads `arg2` (the precomputed-indexes slot) and
      writes `arg3` (its input); storing statistics falls through into the backprop case. */
  function AccessTableAsWritten(nnet: Nnet, comp: Computation, c: Command): (r: seq<SubmatrixAccess>)
    requires CommandInRangeAsWritten(nnet, comp, c)
    ensures TableInRange(comp, r)
  {
    match c.commandType
    case Propagate =>
      [SubmatrixAccess(c.arg2, ReadAccess),
       SubmatrixAccess(c.arg3, if PropagateAdds in Props(nnet, c.arg1) then ReadWriteAccess else WriteAccess)]
    case StoreStats => [SubmatrixAccess(c.arg2, ReadAccess)] + BackpropTableAsWritten(nnet, c)
    case Backprop => BackpropTableAsWritten(nnet, c)
    case _ => AccessTable(nnet, comp, c)
  }

  /** Side effects as written: the fall-through gives storing statistics the backprop test on
      component `arg2`, which for that command is a sub-matrix index. */
  predicate SideEffectsAsWritten(nnet: Nnet, c: Command) {
    c.commandType in {Backprop, StoreStats} && 0 <= c.arg2 < |nnet.components| &&
    UpdatableComponent in Props(nnet, c.arg2)
  }

  function AttributesOfAsWritten(nnet: Nnet, comp: Computation, vi: VarInfo, c: Command): CommandAttributes
    requires ShapedFor(comp, vi) && CommandInRangeAsWritten(nnet, comp, c)
  {
    var recorded := RecordAll(vi, NoAttributes, AccessTableAsWritten(nnet, comp, c));
    var written :=
      if c.commandType == ResizeMatrixZeroed
      then Interval(vi.matrixToVariableIndex[c.arg1], vi.matrixToVariableIndex[c.arg1 + 1])
      else recorded.variablesWritten;
    CommandAttributes(SortAndUniq(recorded.variablesRead), SortAndUniq(written), SideEffectsAsWritten(nnet, c))
  }

  /** The as-written attributes, variable by variable, in the terms of
      `AttributesCharacterised`. */
  lemma AttributesAsWrittenCharacterised(nnet: Nnet, comp: Computation, vi: VarInfo, c: Command)
    requires ShapedFor(comp, vi) && CommandInRangeAsWritten(nnet, comp, c)
    requires c.commandType != ResizeMatrixZeroed
    ensures var attr := AttributesOfAsWritten(nnet, comp, vi, c);
            var table := AccessTableAsWritten(nnet, comp, c);
            (forall v :: v in attr.variablesRead <==> exists k :: 0 <= k < |table| && ReadsVariable(vi, table[k], v)) &&
            (forall v :: v in attr.variablesWritten <==> exists k :: 0 <= k < |table| && WritesVariable(vi, table[k], v)) &&
            attr.hasSideEffects == SideEffectsAsWritten(nnet, c)
  {
    RecordAllMembers(vi, NoAttributes, AccessTableAsWritten(nnet, comp, c));
  }

  /** As written, a propagation with no precomputed indexes (`arg2 == 0`) writes a variable `u` of
      its input `arg3` and not a variable `v` of its output `arg4` (each outside the other view);
      the corrected attributes write the output and leave the input unwritten. */
  lemma PropagateAsWrittenWritesInput(nnet: Nnet, comp: Computation, vi: VarInfo, c: Command, u: int, v: int)
    requires Indexable(comp) && ShapedFor(comp, vi) && SplitShaped(vi.splitPoints) && vi.variableRanges[0] == (0, 0)
    requires c.commandType == Propagate && c.arg2 == 0
    requires CommandInRange(nnet, comp, c) && CommandInRangeAsWritten(nnet, comp, c)
    requires 1 <= c.arg3 && 1 <= c.arg4 && RangeDescribes(comp, vi, c.arg3) && RangeDescribes(comp, vi, c.arg4)
    requires InRange(vi, c.arg3, u) && !InRange(vi, c.arg4, u)
    requires InRange(vi, c.arg4, v) && !InRange(vi, c.arg3, v)
    ensures v !in AttributesOfAsWritten(nnet, comp, vi, c).variablesWritten
    ensures u in AttributesOfAsWritten(nnet, comp, vi, c).variablesWritten
    ensures v in AttributesOf(nnet, comp, vi, c).variablesWritten
    ensures u !in AttributesOf(nnet, comp, vi, c).variablesWritten
  {
    PropagateInputAccess(nnet, comp, vi, c, u);
    PropagateOutputAccess(nnet, comp, vi, c, v);
    PropagateAsWrittenTable(nnet, comp, vi, c, u, v);
  }

  lemma PropagateAsWrittenTable(nnet: Nnet, comp: Computation, vi: VarInfo, c: Command, u: int, v: int)
    requires Indexable(comp) && ShapedFor(comp, vi) && SplitShaped(vi.splitPoints) && vi.variableRanges[0] == (0, 0)
    requires c.commandType == Propagate && c.arg2 == 0
    requires CommandInRange(nnet, comp, c) && CommandInRangeAsWritten(nnet, comp, c)
    requires 1 <= c.arg3 && 1 <= c.arg4 && RangeDescribes(comp, vi, c.arg3) && RangeDescribes(comp, vi, c.arg4)
    requires InRange(vi, c.arg3, u) && !InRange(vi, c.arg4, u)
    requires InRange(vi, c.arg4, v) && !InRange(vi, c.arg3, v)
    ensures v !in AttributesOfAsWritten(nnet, comp, vi, c).variablesWritten
    ensures u in AttributesOfAsWritten(nnet, comp, vi, c).variablesWritten
  {
    AttributesAsWrittenCharacterised(nnet, comp, vi, c);
    var table := AccessTableAsWritten(nnet, comp, c);
    EntryDecides(vi, table, 1, v);
    assert WritesVariable(vi, table[1], u);
  }

  /** As written, the adds flag of a backprop comes from the component whose index equals the
      node index: when that component does not add but the backprop's own component does, a
      full-row input derivative is recorded as a plain write instead of a read-write. */
  lemma BackpropAsWrittenMissesAdds(nnet: Nnet, comp: Computation, vi: VarInfo, c: Command, v: int)
    requires Indexable(comp) && ShapedFor(comp, vi)
    requires c.commandType == Backprop
    requires CommandInRange(nnet, comp, c) && CommandInRangeAsWritten(nnet, comp, c)
    requires BackpropAdds in Props(nnet, c.arg2) && BackpropAdds !in Props(nnet, c.arg1)
    requires vi.fullRowRange[c.arg7] && InRange(vi, c.arg7, v)
    requires forall a :: a in {c.arg4, c.arg5, c.arg6} ==> !InRange(vi, a, v)
    ensures v in AttributesOf(nnet, comp, vi, c).variablesRead
    ensures v !in AttributesOfAsWritten(nnet, comp, vi, c).variablesRead
  {
    BackpropReadsFromAdds(nnet, comp, vi, c, v);
    BackpropAsWrittenReads(nnet, comp, vi, c, v);
  }

  lemma BackpropReadsFromAdds(nnet: Nnet, comp: Computation, vi: VarInfo, c: Command, v: int)
    requires ShapedFor(comp, vi) && c.commandType == Backprop && CommandInRange(nnet, comp, c)
    requires BackpropAdds in Props(nnet, c.arg2)
    requires InRange(vi, c.arg7, v)
    requires forall a :: a in {c.arg4, c.arg5, c.arg6} ==> !InRange(vi, a, v)
    ensures v in AttributesOf(nnet, comp, vi, c).variablesRead
  {
    AttributesCharacterised(nnet, comp, vi, c);
    EntryDecides(vi, AccessTable(nnet, comp, c), 3, v);
  }

  lemma BackpropAsWrittenReads(nnet: Nnet, comp: Computation, vi: VarInfo, c: Command, v: int)
    requires ShapedFor(comp, vi) && c.commandType == Backprop && CommandInRangeAsWritten(nnet, comp, c)
    requires BackpropAdds !in Props(nnet, c.arg1)
    requires vi.fullRowRange[c.arg7] && InRange(vi, c.arg7, v)
    requires forall a :: a in {c.arg4, c.arg5, c.arg6} ==> !InRange(vi, a, v)
    ensures v !in AttributesOfAsWritten(nnet, comp, vi, c).variablesRead
  {
    AttributesAsWrittenCharacterised(nnet, comp, vi, c);
    EntryDecides(vi, AccessTableAsWritten(nnet, comp, c), 3, v);
  }

  /** As written, storing statistics also records the backprop operands and reports side
      effects whenever its sub-matrix index names an updatable component; the corrected
      attributes read only the statistics' sub-matrix and never have side effects. */
  lemma StoreStatsAsWrittenDiffers(nnet: Nnet, comp: Computation, vi: VarInfo, c: Command, v: int)
    requires ShapedFor(comp, vi)
    requires c.commandType == StoreStats
    requires CommandInRange(nnet, comp, c) && CommandInRangeAsWritten(nnet, comp, c)
    requires InRange(vi, c.arg4, v) && !InRange(vi, c.arg2, v)
    ensures v in AttributesOfAsWritten(nnet, comp, vi, c).variablesRead
    ensures v !in AttributesOf(nnet, comp, vi, c).variablesRead
    ensures !AttributesOf(nnet, comp, vi, c).hasSideEffects
    ensures AttributesOfAsWritten(nnet, comp, vi, c).hasSideEffects <==>
            c.arg2 < |nnet.components| && UpdatableComponent in Props(nnet, c.arg2)
  {
    AttributesCharacterised(nnet, comp, vi, c);
    AttributesAsWrittenCharacterised(nnet, comp, vi, c);
    assert ReadsVariable(vi, AccessTableAsWritten(nnet, comp, c)[1], v);
  }
}
