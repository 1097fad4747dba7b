/** `ComputeVariableAccesses` and `ComputeMatrixAccesses` (src/nnet3/nnet-analyze.cc:323-445):
    from the per-command attributes, the history of accesses of every variable, and for every
    matrix the commands that allocate, touch and free it and whether it is an input or an output
    of the computation. */
module Accesses {
  import opened Outcomes
  import opened Sorted
  import opened Decimal
  import opened Ir
  import opened NnetOracle
  import opened AccessTypes
  import opened Variables

  // ---- variable accesses ---------------------------------------------------------------

  /** One access of a variable: the command and how it touches the variable. */
  datatype Access = Access(command: int, accessType: AccessType)

  /** Command attributes `attr` mention variable `v`. */
  predicate Touches(attr: CommandAttributes, v: int) {
    v in attr.variablesRead || v in attr.variablesWritten
  }

  /** How a command touching `v` touches it. */
  function AccessKind(attr: CommandAttributes, v: int): AccessType {
    if v in attr.variablesRead then
      if v in attr.variablesWritten then ReadWriteAccess else ReadAccess
    else WriteAccess
  }

  /** The accesses of variable `v` by the first `n` commands, in command order. */
  function History(attrs: seq<CommandAttributes>, v: int, n: nat): seq<Access>
    requires n <= |attrs|
  {
    if n == 0 then []
    else History(attrs, v, n - 1) + (if Touches(attrs[n - 1], v) then [Access(n - 1, AccessKind(attrs[n - 1], v))] else [])
  }

  /** The entries of `h` name, in strictly increasing order, commands among the first `n` that
      touch `v`, each with the kind of access that command makes. */
  predicate HistoryEntries(attrs: seq<CommandAttributes>, v: int, n: nat, h: seq<Access>)
    requires n <= |attrs|
  {
    (forall i, j :: 0 <= i < j < |h| ==> h[i].command < h[j].command) &&
    (forall i :: 0 <= i < |h| ==>
       0 <= h[i].command < n && Touches(attrs[h[i].command], v) &&
       h[i].accessType == AccessKind(attrs[h[i].command], v))
  }

  /** Every command among the first `n` that touches `v` has an entry in `h`. */
  predicate HistoryComplete(attrs: seq<CommandAttributes>, v: int, n: nat, h: seq<Access>)
    requires n <= |attrs|
  {
    forall c :: 0 <= c < n && Touches(attrs[c], v) ==> exists i :: 0 <= i < |h| && h[i].command == c
  }

  /** A variable's history lists each command that touches it exactly once, in increasing order,
      with the kind of access that command makes. */
  lemma HistoryCharacterised(attrs: seq<CommandAttributes>, v: int, n: nat)
    requires n <= |attrs|
    ensures HistoryEntries(attrs, v, n, History(attrs, v, n))
    ensures HistoryComplete(attrs, v, n, History(attrs, v, n))
  {
    HistoryEntriesHold(attrs, v, n);
    HistoryCompleteHolds(attrs, v, n);
  }

  lemma {:induction false} HistoryEntriesHold(attrs: seq<CommandAttributes>, v: int, n: nat)
    requires n <= |attrs|
    ensures HistoryEntries(attrs, v, n, History(attrs, v, n))
  {
    if n > 0 {
      HistoryEntriesHold(attrs, v, n - 1);
      var h := History(attrs, v, n);
      var prev := History(attrs, v, n - 1);
      assert HistoryEntries(attrs, v, n - 1, prev);
      var last := if Touches(attrs[n - 1], v) then [Access(n - 1, AccessKind(attrs[n - 1], v))] else [];
      assert h == prev + last;
      forall i | 0 <= i < |h|
        ensures 0 <= h[i].command < n && Touches(attrs[h[i].command], v) &&
                h[i].accessType == AccessKind(attrs[h[i].command], v)
      {
        if i < |prev| {
          assert h[i] == prev[i];
        } else {
          assert h[i] == last[0];
        }
      }
      forall i, j | 0 <= i < j < |h| ensures h[i].command < h[j].command {
        assert h[i] == prev[i];
        if j < |prev| {
          assert h[j] == prev[j];
        } else {
          assert h[j] == last[0];
        }
      }
    }
  }

  lemma {:induction false} HistoryCompleteHolds(attrs: seq<CommandAttributes>, v: int, n: nat)
    requires n <= |attrs|
    ensures HistoryComplete(attrs, v, n, History(attrs, v, n))
  {
    if n > 0 {
      HistoryCompleteHolds(attrs, v, n - 1);
      var h := History(attrs, v, n);
      var prev := History(attrs, v, n - 1);
      assert HistoryComplete(attrs, v, n - 1, prev);
      var last := if Touches(attrs[n - 1], v) then [Access(n - 1, AccessKind(attrs[n - 1], v))] else [];
      assert h == prev + last;
      forall c | 0 <= c < n && Touches(attrs[c], v) ensures exists i :: 0 <= i < |h| && h[i].command == c {
        if c == n - 1 {
          assert h[|prev|] == last[0];
        } else {
          var i :| 0 <= i < |prev| && prev[i].command == c;
          assert h[i] == prev[i];
        }
      }
    }
  }

  /** One entry of a variable's history: a command that touches the variable, with its kind of
      access. */
  lemma HistoryEntry(attrs: seq<CommandAttributes>, v: int, n: nat, i: int)
    requires n <= |attrs| && 0 <= i < |History(attrs, v, n)|
    ensures var e := History(attrs, v, n)[i];
            0 <= e.command < n && Touches(attrs[e.command], v) && e.accessType == AccessKind(attrs[e.command], v)
  {
    HistoryCharacterised(attrs, v, n);
  }

  /** Attributes whose lists are sorted and duplicate-free and name only variables below
      `numVariables`. */
  predicate AttributesWellFormed(attrs: seq<CommandAttributes>, numVariables: int) {
    forall c :: 0 <= c < |attrs| ==>
      StrictlySorted(attrs[c].variablesRead) && StrictlySorted(attrs[c].variablesWritten) &&
      (forall v :: v in attrs[c].variablesRead ==> 0 <= v < numVariables) &&
      (forall v :: v in attrs[c].variablesWritten ==> 0 <= v < numVariables)
  }

  /** Appends one access of command `c` to the history of every variable in `all`. */
  method ComputeVariableAccesses(numVariables: nat, attrs: seq<CommandAttributes>)
    returns (accesses: seq<seq<Access>>)
    requires AttributesWellFormed(attrs, numVariables)
    ensures |accesses| == numVariables
    ensures forall v :: 0 <= v < numVariables ==> accesses[v] == History(attrs, v, |attrs|)
  {
    accesses := seq(numVariables, _ => []);
    for c := 0 to |attrs|
      invariant |accesses| == numVariables
      invariant forall v :: 0 <= v < numVariables ==> accesses[v] == History(attrs, v, c)
    {
      var attr := attrs[c];
      var all := SortAndUniq(attr.variablesRead + attr.variablesWritten);
      for i := 0 to |all|
        invariant |accesses| == numVariables
        invariant forall v :: 0 <= v < numVariables ==>
                    accesses[v] == History(attrs, v, c) +
                                   (if v in all[..i] then [Access(c, AccessKind(attr, v))] else [])
      {
        var v := all[i];
        assert v in attr.variablesRead + attr.variablesWritten;
        assert v !in all[..i];
        var isRead := v in attr.variablesRead;
        var isWritten := if !isRead then true else v in attr.variablesWritten;
        var access;
        if isRead && isWritten {
          access := Access(c, ReadWriteAccess);
        } else if isRead {
          access := Access(c, ReadAccess);
        } else {
          access := Access(c, WriteAccess);
        }
        assert all[..i + 1] == all[..i] + [v];
        accesses := accesses[v := accesses[v] + [access]];
      }
      assert all[..|all|] == all;
      assert forall v :: v in all <==> Touches(attr, v);
    }
  }

  // ---- matrix accesses -----------------------------------------------------------------

  /** Per matrix: the command that allocates it (-1 if none), the command that frees it (-1 if
      none), every command that touches one of its variables (once per variable touched), and
      whether it is an input or an output of the computation. */
  datatype MatrixAccesses = MatrixAccesses(
    initializeCommand: int, destroyCommand: int, accessCommands: seq<int>, isInput: bool, isOutput: bool)

  /** `c` allocates matrix `m` (a zeroing or an undefined resize). */
  predicate Initializes(c: Command, m: int) {
    (c.commandType == ResizeMatrixZeroed || c.commandType == ResizeMatrixUndefined) && c.arg1 == m
  }

  /** `c` frees matrix `m`. */
  predicate Destroys(c: Command, m: int) {
    c.commandType == ResizeMatrixEmpty && c.arg1 == m
  }

  /** The last of the first `n` commands that allocates `m`, or -1. */
  function LastInitialize(comp: Computation, m: int, n: nat): int
    requires n <= |comp.commands|
  {
    if n == 0 then -1
    else if Initializes(comp.commands[n - 1], m) then n - 1
    else LastInitialize(comp, m, n - 1)
  }

  /** The last of the first `n` commands that frees `m`, or -1. */
  function LastDestroy(comp: Computation, m: int, n: nat): int
    requires n <= |comp.commands|
  {
    if n == 0 then -1
    else if Destroys(comp.commands[n - 1], m) then n - 1
    else LastDestroy(comp, m, n - 1)
  }

  lemma {:induction false} LastResizeCharacterised(comp: Computation, m: int, n: nat)
    requires n <= |comp.commands|
    ensures var i := LastInitialize(comp, m, n);
            (i == -1 <==> forall c :: 0 <= c < n ==> !Initializes(comp.commands[c], m)) &&
            (i != -1 ==> 0 <= i < n && Initializes(comp.commands[i], m) &&
                         forall c :: i < c < n ==> !Initializes(comp.commands[c], m))
    ensures var d := LastDestroy(comp, m, n);
            (d == -1 <==> forall c :: 0 <= c < n ==> !Destroys(comp.commands[c], m)) &&
            (d != -1 ==> 0 <= d < n && Destroys(comp.commands[d], m) &&
                         forall c :: d < c < n ==> !Destroys(comp.commands[c], m))
  {
    if n > 0 {
      LastResizeCharacterised(comp, m, n - 1);
    }
  }

  /** Two commands that allocate the same matrix, or free the same matrix. */
  predicate Clash(a: Command, b: Command) {
    (Initializes(a, b.arg1) && Initializes(b, b.arg1)) || (Destroys(a, b.arg1) && Destroys(b, b.arg1))
  }

  /** The errors of the resize bookkeeping among the first `n` commands: the first command that
      allocates, or frees, a matrix a second time. */
  function ResizeCheck(comp: Computation, n: nat): Outcome
    requires n <= |comp.commands|
  {
    if n == 0 then Pass
    else match ResizeCheck(comp, n - 1)
         case Fail(msg) => Fail(msg)
         case Pass =>
           var c := comp.commands[n - 1];
           if Initializes(c, c.arg1) && LastInitialize(comp, c.arg1, n - 1) != -1
           then Fail("Matrix " + IntToString(c.arg1) + " initialized twice.")
           else if Destroys(c, c.arg1) && LastDestroy(comp, c.arg1, n - 1) != -1
           then Fail("Matrix " + IntToString(c.arg1) + " destroyed twice.")
           else Pass
  }

  /** The resize bookkeeping fails exactly when two commands allocate, or two free, the same
      matrix. */
  lemma {:induction false} ResizeCheckPasses(comp: Computation, n: nat)
    requires n <= |comp.commands|
    ensures ResizeCheck(comp, n).Pass? <==>
            forall c1, c2 :: 0 <= c1 < c2 < n ==> !Clash(comp.commands[c1], comp.commands[c2])
  {
    if n > 0 {
      ResizeCheckPasses(comp, n - 1);
      var c := comp.commands[n - 1];
      LastResizeCharacterised(comp, c.arg1, n - 1);
      if ResizeCheck(comp, n).Pass? {
        forall c1, c2 | 0 <= c1 < c2 < n ensures !Clash(comp.commands[c1], comp.commands[c2]) {
        }
      } else if ResizeCheck(comp, n - 1).Pass? {
        if Initializes(c, c.arg1) && LastInitialize(comp, c.arg1, n - 1) != -1 {
          assert Clash(comp.commands[LastInitialize(comp, c.arg1, n - 1)], c);
        } else {
          assert Clash(comp.commands[LastDestroy(comp, c.arg1, n - 1)], c);
        }
      }
    }
  }

  lemma {:induction false} ResizeCheckKeepsFailure(comp: Computation, a: nat, b: nat)
    requires a <= b <= |comp.commands| && ResizeCheck(comp, a).Fail?
    ensures ResizeCheck(comp, b) == ResizeCheck(comp, a)
    decreases b - a
  {
    if a < b {
      ResizeCheckKeepsFailure(comp, a, b - 1);
    }
  }

  /** Variable `v` belongs to matrix `m` according to the variable-to-matrix map `owner`. */
  predicate OwnedBy(owner: seq<int>, v: int, m: int) {
    0 <= v < |owner| && owner[v] == m
  }

  /** The variables a command's attributes list, reads first, in the order they are visited. */
  function Touched(attr: CommandAttributes): seq<int> {
    attr.variablesRead + attr.variablesWritten
  }

  /** How many entries of `vars` belong to matrix `m`. */
  function Count(owner: seq<int>, vars: seq<int>, m: int): nat {
    if vars == [] then 0
    else Count(owner, vars[..|vars| - 1], m) + (if OwnedBy(owner, vars[|vars| - 1], m) then 1 else 0)
  }

  lemma {:induction false} CountPositive(owner: seq<int>, vars: seq<int>, m: int)
    ensures Count(owner, vars, m) > 0 <==> exists v :: v in vars && OwnedBy(owner, v, m)
  {
    if vars != [] {
      var init := vars[..|vars| - 1];
      CountPositive(owner, init, m);
      assert vars == init + [vars[|vars| - 1]];
    }
  }

  lemma {:induction false} CountAppend(owner: seq<int>, a: seq<int>, b: seq<int>, m: int)
    ensures Count(owner, a + b, m) == Count(owner, a, m) + Count(owner, b, m)
  {
    if b == [] {
      assert a + b == a;
    } else {
      CountAppend(owner, a, b[..|b| - 1], m);
      assert (a + b)[..|a + b| - 1] == a + b[..|b| - 1];
      assert (a + b)[|a + b| - 1] == b[|b| - 1];
      assert Count(owner, a + b, m) ==
             Count(owner, a + b[..|b| - 1], m) + (if OwnedBy(owner, b[|b| - 1], m) then 1 else 0);
    }
  }

  /** The commands among the first `n` that touch matrix `m`, each repeated once per variable of
      `m` it reads and once per variable it writes. */
  function AccessCommandsOf(owner: seq<int>, attrs: seq<CommandAttributes>, m: int, n: nat): seq<int>
    requires n <= |attrs|
  {
    if n == 0 then []
    else AccessCommandsOf(owner, attrs, m, n - 1) + seq(Count(owner, Touched(attrs[n - 1]), m), _ => n - 1)
  }

  /** Some variable of matrix `m` is read or written by a command with attributes `attr`. */
  predicate TouchesMatrix(owner: seq<int>, attr: CommandAttributes, m: int) {
    exists v :: v in Touched(attr) && OwnedBy(owner, v, m)
  }

  /** A matrix's access commands are in non-decreasing order and are exactly the commands that
      touch one of its variables. */
  lemma {:induction false} AccessCommandsCharacterised(owner: seq<int>, attrs: seq<CommandAttributes>, m: int, n: nat)
    requires n <= |attrs|
    ensures var a := AccessCommandsOf(owner, attrs, m, n);
            (forall i, j :: 0 <= i <= j < |a| ==> a[i] <= a[j]) &&
            (forall c :: c in a <==> 0 <= c < n && TouchesMatrix(owner, attrs[c], m))
  {
    if n > 0 {
      AccessCommandsCharacterised(owner, attrs, m, n - 1);
      CountPositive(owner, Touched(attrs[n - 1]), m);
      var prev := AccessCommandsOf(owner, attrs, m, n - 1);
      var tail := seq(Count(owner, Touched(attrs[n - 1]), m), _ => n - 1);
      var a := AccessCommandsOf(owner, attrs, m, n);
      assert a == prev + tail;
      forall i | 0 <= i < |prev| ensures a[i] == prev[i] && a[i] < n - 1 {
        assert prev[i] in prev;
      }
      forall c ensures c in a <==> 0 <= c < n && TouchesMatrix(owner, attrs[c], m) {
        assert c in a <==> c in prev || c in tail;
        assert c in tail <==> c == n - 1 && |tail| > 0 by {
          if |tail| > 0 { assert tail[0] == n - 1; }
        }
      }
    }
  }

  /** The bookkeeping of matrix `m` after the first `n` commands, before the input and output
      flags are set. */
  function RecordedAt(comp: Computation, owner: seq<int>, attrs: seq<CommandAttributes>, m: int, n: nat): MatrixAccesses
    requires n <= |attrs| && n <= |comp.commands|
  {
    MatrixAccesses(LastInitialize(comp, m, n), LastDestroy(comp, m, n), AccessCommandsOf(owner, attrs, m, n), false, false)
  }

  /** How one command changes the bookkeeping of matrix `m`. */
  lemma RecordedStep(comp: Computation, owner: seq<int>, attrs: seq<CommandAttributes>, m: int, c: nat)
    requires c < |attrs| && c < |comp.commands|
    ensures var cmd := comp.commands[c];
            var before := RecordedAt(comp, owner, attrs, m, c);
            RecordedAt(comp, owner, attrs, m, c + 1) ==
              before.(initializeCommand := if Initializes(cmd, m) then c else before.initializeCommand,
                      destroyCommand := if Destroys(cmd, m) then c else before.destroyCommand,
                      accessCommands := before.accessCommands +
                        seq(Count(owner, attrs[c].variablesRead, m), _ => c) +
                        seq(Count(owner, attrs[c].variablesWritten, m), _ => c))
  {
    CountAppend(owner, attrs[c].variablesRead, attrs[c].variablesWritten, m);
    var a := Count(owner, attrs[c].variablesRead, m);
    var b := Count(owner, attrs[c].variablesWritten, m);
    assert seq(a + b, _ => c) == seq(a, _ => c) + seq(b, _ => c);
  }

  /** Every derivative matrix named in `io` is 0 or a matrix index. */
  predicate DerivsInRange(io: seq<IoEntry>, numMatrices: int) {
    forall k :: 0 <= k < |io| ==> io[k].derivMatrix == 0 || 0 <= io[k].derivMatrix < numMatrices
  }

  /** Marks the matrices of one input/output entry: an input node's value matrix is an input of
      the computation and its derivative matrix an output; an output node's value matrix is an
      output and its derivative matrix an input. Each flag may be set only once. */
  function IoStep(nnet: Nnet, ma: seq<MatrixAccesses>, e: IoEntry): (r: Result<seq<MatrixAccesses>>)
    requires e.derivMatrix == 0 || 0 <= e.derivMatrix < |ma|
    ensures r.Ok? ==> |r.value| == |ma|
  {
    var value := e.valueMatrix;
    var deriv := e.derivMatrix;
    if !(value > 0 && value < |ma|) then Err("value_matrix_index > 0 && value_matrix_index < num_matrices")
    else if nnet.IsInputNode(e.node) then
      if ma[value].isInput then Err("!(*matrix_accesses)[value_matrix_index].is_input")
      else
        var ma1 := ma[value := ma[value].(isInput := true)];
        if deriv == 0 then Ok(ma1)
        else if ma1[deriv].isOutput then Err("!(*matrix_accesses)[deriv_matrix_index].is_output")
        else Ok(ma1[deriv := ma1[deriv].(isOutput := true)])
    else if !nnet.IsOutputNode(e.node) then Err("nnet.IsOutputNode(node_index)")
    else if ma[value].isOutput then Err("!(*matrix_accesses)[value_matrix_index].is_output")
    else
      var ma1 := ma[value := ma[value].(isOutput := true)];
      if deriv == 0 then Ok(ma1)
      else if ma1[deriv].isInput then Err("!(*matrix_accesses)[deriv_matrix_index].is_input")
      else Ok(ma1[deriv := ma1[deriv].(isInput := true)])
  }

  /** The flags after the first `n` entries of `io`, in iteration order. */
  function IoFlags(nnet: Nnet, ma: seq<MatrixAccesses>, io: seq<IoEntry>, n: nat): (r: Result<seq<MatrixAccesses>>)
    requires n <= |io| && DerivsInRange(io, |ma|)
    ensures r.Ok? ==> |r.value| == |ma|
  {
    if n == 0 then Ok(ma)
    else match IoFlags(nnet, ma, io, n - 1)
         case Err(msg) => Err(msg)
         case Ok(ma1) => IoStep(nnet, ma1, io[n - 1])
  }

  lemma {:induction false} IoFlagsKeepsFailure(nnet: Nnet, ma: seq<MatrixAccesses>, io: seq<IoEntry>, a: nat, b: nat)
    requires a <= b <= |io| && DerivsInRange(io, |ma|) && IoFlags(nnet, ma, io, a).Err?
    ensures IoFlags(nnet, ma, io, b) == IoFlags(nnet, ma, io, a)
    decreases b - a
  {
    if a < b {
      IoFlagsKeepsFailure(nnet, ma, io, a, b - 1);
    }
  }

  /** Entry `k` names matrix `m` as an input: the value matrix of an input node, or the
      derivative matrix of an output node. */
  predicate InputFlagAt(nnet: Nnet, io: seq<IoEntry>, k: int, m: int)
    requires 0 <= k < |io|
  {
    (nnet.IsInputNode(io[k].node) && io[k].valueMatrix == m) ||
    (!nnet.IsInputNode(io[k].node) && io[k].derivMatrix != 0 && io[k].derivMatrix == m)
  }

  /** Entry `k` names matrix `m` as an output: the value matrix of an output node, or the
      derivative matrix of an input node. */
  predicate OutputFlagAt(nnet: Nnet, io: seq<IoEntry>, k: int, m: int)
    requires 0 <= k < |io|
  {
    (!nnet.IsInputNode(io[k].node) && io[k].valueMatrix == m) ||
    (nnet.IsInputNode(io[k].node) && io[k].derivMatrix != 0 && io[k].derivMatrix == m)
  }

  /** Matrix `m` is an input of the computation according to the first `n` entries. */
  predicate FlaggedInput(nnet: Nnet, io: seq<IoEntry>, n: nat, m: int)
    requires n <= |io|
  {
    exists k :: 0 <= k < n && InputFlagAt(nnet, io, k, m)
  }

  /** Matrix `m` is an output of the computation according to the first `n` entries. */
  predicate FlaggedOutput(nnet: Nnet, io: seq<IoEntry>, n: nat, m: int)
    requires n <= |io|
  {
    exists k :: 0 <= k < n && OutputFlagAt(nnet, io, k, m)
  }

  /** Entry `k` names a value matrix other than the reserved one, and a node that is an input
      or an output of the network. */
  predicate EntryAcceptable(nnet: Nnet, io: seq<IoEntry>, k: int, numMatrices: int)
    requires 0 <= k < |io|
  {
    0 < io[k].valueMatrix < numMatrices &&
    (nnet.IsInputNode(io[k].node) || nnet.IsOutputNode(io[k].node))
  }

  /** No two of the first `n` entries name the same matrix as an input, nor the same matrix as
      an output. */
  ghost predicate FlagsUnique(nnet: Nnet, io: seq<IoEntry>, n: nat)
    requires n <= |io|
  {
    forall j, k, m :: 0 <= j < k < n ==>
      !(InputFlagAt(nnet, io, j, m) && InputFlagAt(nnet, io, k, m)) &&
      !(OutputFlagAt(nnet, io, j, m) && OutputFlagAt(nnet, io, k, m))
  }

  /** Starting from cleared flags, a matrix ends up flagged as an input (an output) exactly
      when some entry names it as one; nothing else about it changes. */
  lemma {:induction false} IoFlagsCharacterised(nnet: Nnet, ma: seq<MatrixAccesses>, io: seq<IoEntry>, n: nat)
    requires n <= |io| && DerivsInRange(io, |ma|)
    requires forall m :: 0 <= m < |ma| ==> !ma[m].isInput && !ma[m].isOutput
    ensures var r := IoFlags(nnet, ma, io, n);
            r.Ok? ==> forall m :: 0 <= m < |ma| ==>
              r.value[m] == ma[m].(isInput := FlaggedInput(nnet, io, n, m), isOutput := FlaggedOutput(nnet, io, n, m))
  {
    if n > 0 {
      IoFlagsCharacterised(nnet, ma, io, n - 1);
      var r := IoFlags(nnet, ma, io, n);
      if r.Ok? {
        var prev := IoFlags(nnet, ma, io, n - 1).value;
        var e := io[n - 1];
        forall m | 0 <= m < |ma|
          ensures r.value[m] == ma[m].(isInput := FlaggedInput(nnet, io, n, m), isOutput := FlaggedOutput(nnet, io, n, m))
        {
          assert FlaggedInput(nnet, io, n, m) <==> FlaggedInput(nnet, io, n - 1, m) || InputFlagAt(nnet, io, n - 1, m);
          assert FlaggedOutput(nnet, io, n, m) <==> FlaggedOutput(nnet, io, n - 1, m) || OutputFlagAt(nnet, io, n - 1, m);
        }
      }
    }
  }

  /** Entry `k` sets no flag that an earlier entry set. */
  ghost predicate FreshFlags(nnet: Nnet, io: seq<IoEntry>, k: int)
    requires 0 <= k < |io|
  {
    forall m :: !(InputFlagAt(nnet, io, k, m) && FlaggedInput(nnet, io, k, m)) &&
                !(OutputFlagAt(nnet, io, k, m) && FlaggedOutput(nnet, io, k, m))
  }

  /** Starting from cleared flags, marking the entries succeeds exactly when every entry is
      acceptable and no flag is set twice; each failed assertion of the source is one of these
      conditions broken. */
  lemma {:induction false} IoFlagsSucceeds(nnet: Nnet, ma: seq<MatrixAccesses>, io: seq<IoEntry>, n: nat)
    requires n <= |io| && DerivsInRange(io, |ma|)
    requires forall m :: 0 <= m < |ma| ==> !ma[m].isInput && !ma[m].isOutput
    ensures IoFlags(nnet, ma, io, n).Ok? <==>
              (forall k :: 0 <= k < n ==> EntryAcceptable(nnet, io, k, |ma|)) && FlagsUnique(nnet, io, n)
  {
    if n > 0 {
      IoFlagsSucceeds(nnet, ma, io, n - 1);
      UniqueExtends(nnet, io, n);
      if IoFlags(nnet, ma, io, n - 1).Ok? {
        IoFlagsCharacterised(nnet, ma, io, n - 1);
        IoStepSucceeds(nnet, ma, io, n - 1);
      }
    }
  }

  /** The flags of the first `n` entries are unique exactly when those of the first `n - 1`
      are and the last entry sets no flag an earlier one set. */
  lemma UniqueExtends(nnet: Nnet, io: seq<IoEntry>, n: nat)
    requires 0 < n <= |io|
    ensures FlagsUnique(nnet, io, n) <==>
              FlagsUnique(nnet, io, n - 1) &&
              FreshFlags(nnet, io, n - 1)
  {
  }

  /** One marking step on the flags the first `k` entries leave succeeds exactly when entry `k`
      is acceptable and sets no flag an earlier entry set. */
  lemma IoStepSucceeds(nnet: Nnet, ma: seq<MatrixAccesses>, io: seq<IoEntry>, k: nat)
    requires k < |io| && DerivsInRange(io, |ma|)
    requires IoFlags(nnet, ma, io, k).Ok?
    requires forall m :: 0 <= m < |ma| ==>
               IoFlags(nnet, ma, io, k).value[m].isInput == FlaggedInput(nnet, io, k, m) &&
               IoFlags(nnet, ma, io, k).value[m].isOutput == FlaggedOutput(nnet, io, k, m)
    ensures IoStep(nnet, IoFlags(nnet, ma, io, k).value, io[k]).Ok? <==>
              EntryAcceptable(nnet, io, k, |ma|) &&
              FreshFlags(nnet, io, k)
  {
    var e := io[k];
    if !EntryAcceptable(nnet, io, k, |ma|) || !(0 < e.valueMatrix < |ma|) {
      return;
    }
    if e.derivMatrix != 0 {
      assert InputFlagAt(nnet, io, k, e.derivMatrix) || OutputFlagAt(nnet, io, k, e.derivMatrix);
    }
    assert InputFlagAt(nnet, io, k, e.valueMatrix) || OutputFlagAt(nnet, io, k, e.valueMatrix);
    forall m | InputFlagAt(nnet, io, k, m) || OutputFlagAt(nnet, io, k, m)
      ensures m == e.valueMatrix || m == e.derivMatrix
    {
    }
  }

  /** Every variable the attributes list has a recorded owner other than the reserved matrix. */
  predicate VariablesOwned(owner: seq<int>, attrs: seq<CommandAttributes>, numMatrices: int) {
    forall c :: 0 <= c < |attrs| ==>
      forall v :: v in Touched(attrs[c]) ==> 0 <= v < |owner| && 0 < owner[v] < numMatrices
  }

  /** Every resize among the first `n` commands names a matrix. */
  predicate ResizesInRange(comp: Computation, n: nat)
    requires n <= |comp.commands|
  {
    forall c :: 0 <= c < n ==>
      comp.commands[c].commandType in {ResizeMatrixZeroed, ResizeMatrixUndefined, ResizeMatrixEmpty} ==>
        0 <= comp.commands[c].arg1 < |comp.matrices|
  }

  /** The bookkeeping of all matrices after all commands, or the first resize error. */
  function RecordedOf(comp: Computation, owner: seq<int>, attrs: seq<CommandAttributes>): Result<seq<MatrixAccesses>>
    requires |attrs| <= |comp.commands|
  {
    match ResizeCheck(comp, |attrs|)
    case Fail(msg) => Err(msg)
    case Pass => Ok(seq(|comp.matrices|, m => RecordedAt(comp, owner, attrs, m, |attrs|)))
  }

  /** Appends command `c` to the access list of the matrix of each variable in `list`. */
  method AddAccesses(variables: ComputationVariables, ma: seq<MatrixAccesses>, c: int, list: seq<int>)
    returns (r: seq<MatrixAccesses>)
    requires forall v :: v in list ==> 0 <= v < |variables.variableToMatrix| && 0 <= variables.variableToMatrix[v] < |ma|
    ensures |r| == |ma|
    ensures forall m :: 0 <= m < |ma| ==>
              r[m] == ma[m].(accessCommands := ma[m].accessCommands + seq(Count(variables.variableToMatrix, list, m), _ => c))
  {
    r := ma;
    for j := 0 to |list|
      invariant |r| == |ma|
      invariant forall m :: 0 <= m < |ma| ==>
                  r[m] == ma[m].(accessCommands := ma[m].accessCommands + seq(Count(variables.variableToMatrix, list[..j], m), _ => c))
    {
      var v := list[j];
      assert v in list;
      assert list[..j + 1][..j] == list[..j];
      var matrixIndex := variables.GetMatrixForVariable(v);
      r := r[matrixIndex := r[matrixIndex].(accessCommands := r[matrixIndex].accessCommands + [c])];
    }
    assert list[..|list|] == list;
  }

  /** Records command `c` as the allocation or the freeing of its matrix if it is a resize,
      failing if that matrix already has one. */
  method RecordResize(comp: Computation, ma: seq<MatrixAccesses>, c: int) returns (r: Result<seq<MatrixAccesses>>)
    requires 0 <= c < |comp.commands| && |ma| == |comp.matrices| && ResizesInRange(comp, c + 1)
    requires ResizeCheck(comp, c).Pass?
    requires forall m :: 0 <= m < |ma| ==>
               ma[m].initializeCommand == LastInitialize(comp, m, c) && ma[m].destroyCommand == LastDestroy(comp, m, c)
    ensures r.Err? ==> ResizeCheck(comp, c + 1) == Fail(r.message)
    ensures r.Ok? ==> ResizeCheck(comp, c + 1).Pass? && |r.value| == |ma|
    ensures r.Ok? ==> forall m :: 0 <= m < |ma| ==>
              r.value[m] == ma[m].(initializeCommand := LastInitialize(comp, m, c + 1),
                                   destroyCommand := LastDestroy(comp, m, c + 1))
  {
    var command := comp.commands[c];
    var matrixIndex := command.arg1;
    match command.commandType {
      case ResizeMatrixZeroed | ResizeMatrixUndefined =>
        if ma[matrixIndex].initializeCommand != -1 {
          return Err("Matrix " + IntToString(matrixIndex) + " initialized twice.");
        }
        r := Ok(ma[matrixIndex := ma[matrixIndex].(initializeCommand := c)]);
      case ResizeMatrixEmpty =>
        if ma[matrixIndex].destroyCommand != -1 {
          return Err("Matrix " + IntToString(matrixIndex) + " destroyed twice.");
        }
        r := Ok(ma[matrixIndex := ma[matrixIndex].(destroyCommand := c)]);
      case _ =>
        r := Ok(ma);
    }
  }

  /** The first phase: every command adds itself to the access list of the matrix of each
      variable it reads or writes, and resizes record allocation and freeing. */
  method RecordCommands(comp: Computation, variables: ComputationVariables, attrs: seq<CommandAttributes>)
    returns (r: Result<seq<MatrixAccesses>>)
    requires |attrs| <= |comp.commands|
    requires VariablesOwned(variables.variableToMatrix, attrs, |comp.matrices|)
    requires ResizesInRange(comp, |attrs|)
    ensures r == RecordedOf(comp, variables.variableToMatrix, attrs)
  {
    ghost var owner := variables.variableToMatrix;
    var numMatrices := |comp.matrices|;
    var ma: seq<MatrixAccesses> := seq(numMatrices, _ => MatrixAccesses(-1, -1, [], false, false));
    for c := 0 to |attrs|
      invariant |ma| == numMatrices
      invariant ResizeCheck(comp, c).Pass?
      invariant forall m :: 0 <= m < numMatrices ==> ma[m] == RecordedAt(comp, owner, attrs, m, c)
    {
      var attr := attrs[c];
      assert forall v :: v in attr.variablesRead || v in attr.variablesWritten ==> v in Touched(attr);
      ma := AddAccesses(variables, ma, c, attr.variablesRead);
      ma := AddAccesses(variables, ma, c, attr.variablesWritten);
      forall m | 0 <= m < numMatrices {
        RecordedStep(comp, owner, attrs, m, c);
      }
      var resized := RecordResize(comp, ma, c);
      if resized.Err? {
        ResizeCheckKeepsFailure(comp, c + 1, |attrs|);
        return Err(resized.message);
      }
      ma := resized.value;
    }
    assert ma == seq(numMatrices, m => RecordedAt(comp, owner, attrs, m, |attrs|));
    r := Ok(ma);
  }

  /** Sets the flags of one input/output entry. */
  method MarkEntry(nnet: Nnet, ma: seq<MatrixAccesses>, e: IoEntry) returns (r: Result<seq<MatrixAccesses>>)
    requires e.derivMatrix == 0 || 0 <= e.derivMatrix < |ma|
    ensures r == IoStep(nnet, ma, e)
  {
    var nodeIndex := e.node;
    var valueMatrixIndex := e.valueMatrix;
    var derivMatrixIndex := e.derivMatrix;
    if !(valueMatrixIndex > 0 && valueMatrixIndex < |ma|) {
      return Err("value_matrix_index > 0 && value_matrix_index < num_matrices");
    }
    var flags := ma;
    if nnet.IsInputNode(nodeIndex) {
      if flags[valueMatrixIndex].isInput {
        return Err("!(*matrix_accesses)[value_matrix_index].is_input");
      }
      flags := flags[valueMatrixIndex := flags[valueMatrixIndex].(isInput := true)];
      if derivMatrixIndex != 0 {
        if flags[derivMatrixIndex].isOutput {
          return Err("!(*matrix_accesses)[deriv_matrix_index].is_output");
        }
        flags := flags[derivMatrixIndex := flags[derivMatrixIndex].(isOutput := true)];
      }
    } else {
      if !nnet.IsOutputNode(nodeIndex) {
        return Err("nnet.IsOutputNode(node_index)");
      }
      if flags[valueMatrixIndex].isOutput {
        return Err("!(*matrix_accesses)[value_matrix_index].is_output");
      }
      flags := flags[valueMatrixIndex := flags[valueMatrixIndex].(isOutput := true)];
      if derivMatrixIndex != 0 {
        if flags[derivMatrixIndex].isInput {
          return Err("!(*matrix_accesses)[deriv_matrix_index].is_input");
        }
        flags := flags[derivMatrixIndex := flags[derivMatrixIndex].(isInput := true)];
      }
    }
    r := Ok(flags);
  }

  /** The second phase: the input/output flags, entry by entry in iteration order. */
  method SetIoFlags(nnet: Nnet, recorded: seq<MatrixAccesses>, io: seq<IoEntry>) returns (r: Result<seq<MatrixAccesses>>)
    requires DerivsInRange(io, |recorded|)
    ensures r == IoFlags(nnet, recorded, io, |io|)
  {
    var ma := recorded;
    for k := 0 to |io|
      invariant IoFlags(nnet, recorded, io, k) == Ok(ma)
    {
      var step := MarkEntry(nnet, ma, io[k]);
      if step.Err? {
        IoFlagsKeepsFailure(nnet, recorded, io, k + 1, |io|);
        return step;
      }
      ma := step.value;
    }
    r := Ok(ma);
  }

  /** What `ComputeMatrixAccesses` produces: the resize errors first, then the input/output
      flags over the recorded bookkeeping. */
  function MatrixAccessesOf(nnet: Nnet, comp: Computation, owner: seq<int>, attrs: seq<CommandAttributes>)
    : (r: Result<seq<MatrixAccesses>>)
    requires |attrs| <= |comp.commands| && DerivsInRange(comp.inputOutputInfo, |comp.matrices|)
    ensures r.Ok? ==> |r.value| == |comp.matrices|
  {
    match RecordedOf(comp, owner, attrs)
    case Err(msg) => Err(msg)
    case Ok(recorded) => IoFlags(nnet, recorded, comp.inputOutputInfo, |comp.inputOutputInfo|)
  }

  /** The bookkeeping of every matrix, once computed: its last allocation and last release
      (-1 if none), the commands touching it in order, and whether some input/output entry makes
      it an input or an output. Computing it succeeds only when no matrix is allocated twice or
      freed twice. */
  lemma MatrixAccessesCharacterised(nnet: Nnet, comp: Computation, owner: seq<int>, attrs: seq<CommandAttributes>)
    requires |attrs| <= |comp.commands| && DerivsInRange(comp.inputOutputInfo, |comp.matrices|)
    requires MatrixAccessesOf(nnet, comp, owner, attrs).Ok?
    ensures ResizeCheck(comp, |attrs|).Pass?
    ensures var ma := MatrixAccessesOf(nnet, comp, owner, attrs).value;
            var io := comp.inputOutputInfo;
            forall m :: 0 <= m < |comp.matrices| ==>
              ma[m] == MatrixAccesses(LastInitialize(comp, m, |attrs|), LastDestroy(comp, m, |attrs|),
                                      AccessCommandsOf(owner, attrs, m, |attrs|),
                                      FlaggedInput(nnet, io, |io|, m), FlaggedOutput(nnet, io, |io|, m))
  {
    var recorded := RecordedOf(comp, owner, attrs).value;
    IoFlagsCharacterised(nnet, recorded, comp.inputOutputInfo, |comp.inputOutputInfo|);
  }

  method ComputeMatrixAccesses(nnet: Nnet, comp: Computation, variables: ComputationVariables,
                               attrs: seq<CommandAttributes>)
    returns (r: Result<seq<MatrixAccesses>>)
    requires |attrs| <= |comp.commands|
    requires VariablesOwned(variables.variableToMatrix, attrs, |comp.matrices|)
    requires ResizesInRange(comp, |attrs|)
    requires DerivsInRange(comp.inputOutputInfo, |comp.matrices|)
    ensures r == MatrixAccessesOf(nnet, comp, variables.variableToMatrix, attrs)
  {
    var recorded := RecordCommands(comp, variables, attrs);
    if recorded.Err? {
      return Err(recorded.message);
    }
    r := SetIoFlags(nnet, recorded.value, comp.inputOutputInfo);
  }
}
