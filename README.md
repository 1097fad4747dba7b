# nnet3 computation analysis and checking, in Dafny

Kaldi's nnet3 compiles a neural-network request into an `NnetComputation`. This is a flat
program made of matrices, sub-matrices (views of the matrices) and commands: resize, propagate,
backprop, copy and add operations, row gathers and scatters, and markers. Before the
computation runs, `ComputationChecker` checks that it is well formed.

This project models that analysis and checking:

- **Variables.** The variable analysis cuts every matrix, along the boundaries of its views,
  into column blocks called *variables*. It assigns each view its range of variables and each
  variable its owning matrix (`Variables`, `ComputationVariables`).
- **Attributes.** For each command, the variables it reads and writes, and whether it has side
  effects (`Attributes`).
- **Accesses.** The access history of every variable, and for every matrix the commands that
  allocate, touch and free it and whether it is an input or output (`Accesses`).
- **Index pass.** The pass that checks every command's operands (`IndexCheck`).
- **Later passes.** The order, lifetime, defined-before-read and no-rewrite passes, and the
  checker object that runs them all (`Checker`).
- **Helpers** from `nnet-computation.cc`:
  - the request lookups (`Request`);
  - the two append operations that grow a computation (`IrBuilder`);
  - the whole-matrix test and the view names (`Ir`).

A computation is a value (`Ir.Computation`). The objects the source updates in place are
classes whose methods are proved against specification functions:
`IrBuilder.NnetComputation`, `Variables.ComputationVariables` and
`Checker.ComputationChecker`. The properties are proved as lemmas about those functions. For
example:

- an accepted computation never allocates an input matrix, and allocates every other matrix
  exactly once, before any use;
- every variable is written before it is read, unless its matrix is an input of the
  computation;
- with rewrite checking on, no variable is written after a read-only access;
- the index pass accepts a command exactly when the command is well formed.

A `KALDI_ERR` or a failed `KALDI_ASSERT` is an error result carrying the source's message
(`Outcomes.Outcome`, `Outcomes.Result`). The network is a read-only oracle of component
capabilities, dimensions and node kinds (`NnetOracle.Nnet`).

Some source text disagrees with what the code does. The model follows the code:

- The comment at `src/nnet3/nnet-analyze.cc:607-608` says the propagate input may be empty for
  non-simple components. The test at line 610 rejects an empty input exactly for non-simple
  components. The model keeps the test as written.
- The output-dimension test at line 615-616 reports "Input-dim mismatch.". The model keeps that
  message.
- `IndexForOutput` reports "Two inputs with the same name" (line 67 of
  `src/nnet3/nnet-computation.cc`). The model keeps that message too.
- `Check` passes the computation to `ComputeVariableAccesses` where the variable analysis is
  expected (`src/nnet3/nnet-analyze.cc:461`). The implicit conversion reruns the analysis of the same
  computation, which yields the same result. The model passes the analysis the constructor
  already computed.

Where the code is evidently wrong, "## Findings" models both the code as written and the
evident intent. The rest of the model uses the intended version.

## Model

| member | source | states |
|---|---|---|
| Variables.SplitPointsMembers | src/nnet3/nnet-analyze.cc:25-47 | a matrix's split points are strictly increasing and are exactly the first and one-past-last columns of its views |
| Variables.UnviewedMatrixUnsplit | src/nnet3/nnet-analyze.cc:33-40 | a matrix that no view refers to gets no boundaries; so the reserved matrix 0 has no split points unless some view refers to it |
| Variables.FirstBoundary | src/nnet3/nnet-analyze.cc:33-40 | boundaries are pushed in view order: a matrix's first two are the first and one-past-last columns of its first view |
| Variables.ReservedViewClashes | src/nnet3/nnet-analyze.cc:98-118 | when a view refers to matrix 0 and the split points and ranges are found, a view of matrix 0 and a view of matrix 1 both cover variable 0, so marking the second of them trips the assertion at line 115 |
| Variables.OffsetsIncrease | src/nnet3/nnet-analyze.cc:48-57 | variable offsets never decrease, and each non-reserved matrix owns at least one variable |
| Variables.NumberVariables | src/nnet3/nnet-analyze.cc:48-57 | the numbering loop yields each matrix's first variable and the total number of variables |
| Variables.CollectBoundaries | src/nnet3/nnet-analyze.cc:33-40 | the collecting loop gathers exactly the view boundaries of each matrix |
| Variables.SortBoundaries | src/nnet3/nnet-analyze.cc:41-46 | sorting succeeds exactly when every non-reserved matrix has at least two split points; on failure it reports that assertion; on success it returns the sorted, unique split points |
| Variables.ComputationVariables.ComputeSplitPoints | src/nnet3/nnet-analyze.cc:25-57 | fails exactly when the reserved view has rows or some matrix has fewer than two split points; otherwise it stores the split points and the offsets |
| Variables.RangesCheckPasses | src/nnet3/nnet-analyze.cc:59-97 | the range loop succeeds exactly when every view from 1 on has a variable range |
| Variables.SubmatrixRangeInBlock | src/nnet3/nnet-analyze.cc:70-92 | a view's range is a non-empty block of its matrix's variables, bounded by the split points at its first and one-past-last columns |
| Variables.RangeExistsIff | src/nnet3/nnet-analyze.cc:76-90 | when both boundaries are split points, a view has a range exactly when it has columns |
| Variables.SubmatrixRangeFacts | src/nnet3/nnet-analyze.cc:59-97 | with the analysis's split points, the only failure of the range lookup is a view with no columns |
| Variables.ComputationVariables.VariableRangeOf | src/nnet3/nnet-analyze.cc:70-92 | the loop body for one view finds the range that the range lemmas characterise |
| Variables.ComputationVariables.ComputeVariableRanges | src/nnet3/nnet-analyze.cc:59-97 | fails at the first view without a range; otherwise it stores every view's range and whether the view spans all rows |
| Variables.OwnersAt | src/nnet3/nnet-analyze.cc:98-122 | the owner list has one entry per variable, and each variable lies in its owner's block |
| Variables.RangeOwnedByItsMatrix | src/nnet3/nnet-analyze.cc:103-118 | every variable of a view's range is owned by the view's matrix |
| Variables.MarkOwners | src/nnet3/nnet-analyze.cc:103-118 | when no view refers to matrix 0, the marking loop never meets a second owner: each covered variable ends up marked with its owning matrix, and every other variable keeps -1 |
| Variables.ComputationVariables.ComputeVariableToMatrix | src/nnet3/nnet-analyze.cc:98-122 | fails with the second-owner assertion (line 115) when a view refers to matrix 0; otherwise fails exactly when some variable lies in no view (the count of -1 at line 120), and on success stores each variable's owning matrix |
| Variables.ComputationVariables.constructor | src/nnet3/nnet-analyze.cc:124-129 | a fresh analysis object holds empty tables |
| Variables.ComputationVariables.Compute | src/nnet3/nnet-analyze.cc:124-129 | the three steps in order: the result is the analysis's outcome, and on success the stored tables describe the computation |
| Variables.AnalyzeSucceeds | src/nnet3/nnet-analyze.cc:25-122 | the analysis succeeds if and only if the reserved view has no rows, no other view refers to matrix 0, every matrix has two split points, every view has columns and every variable is covered by some view |
| Variables.AnalyzeDescribes | src/nnet3/nnet-analyze.cc:25-122 | after a successful analysis every view but view 0 refers to a non-reserved matrix, and the analysis describes the computation: split shape, the ranges of every view and the owners of every variable |
| Variables.ViewCoversOverlappingVariables | src/nnet3/nnet-analyze.cc:59-97 | variables are the finest split: a view covers a variable of its matrix if and only if their columns overlap |
| Variables.ComputationVariables.GetMatrixForVariable | src/nnet3/nnet-analyze.cc:131-134 | the result owns the variable |
| Variables.ComputationVariables.AppendVariablesForSubmatrix | src/nnet3/nnet-analyze.cc:136-144 | appends exactly the view's variables, in increasing order |
| Variables.ComputationVariables.AppendVariablesForMatrix | src/nnet3/nnet-analyze.cc:146-156 | appends exactly the matrix's variables, in increasing order |
| Variables.AppendRun | src/nnet3/nnet-analyze.cc:141-143 | the append loop adds exactly the variables from the start up to the end, in order |
| Variables.ComputationVariables.RecordAccessForSubmatrix | src/nnet3/nnet-analyze.cc:158-182 | a variable becomes written exactly for a write or read-write access, and read for a read, a read-write, or a write to a view that does not span all rows |
| Variables.ComputeSubmatLists | src/nnet3/nnet-analyze.cc:840-853 | fails exactly when some view names the reserved or a missing matrix; otherwise each matrix's list is strictly increasing and holds exactly the views of that matrix |
| Attributes.MultiTargets | src/nnet3/nnet-analyze.cc:192-207 | the distinct sub-matrices of a pair list are strictly sorted and are exactly the first components other than -1 |
| Attributes.IndexesMultiToSubmatrixIndexes | src/nnet3/nnet-analyze.cc:192-207 | the loop that skips -1 and repeats, followed by sort-and-unique, yields exactly those sub-matrices |
| Attributes.MultiTargetsInRange | src/nnet3/nnet-analyze.cc:273-306 | a pair list whose sub-matrices are in range names only views in range |
| Attributes.RecordAllMembers | src/nnet3/nnet-analyze.cc:218-320 | after recording a table of accesses, a variable is read or written exactly when some entry reads or writes it |
| Attributes.AttributesOfCommand | src/nnet3/nnet-analyze.cc:218-320 | the loop body for one command computes that command's attributes |
| Attributes.ComputeCommandAttributes | src/nnet3/nnet-analyze.cc:210-321 | one entry per command, each equal to the attributes the per-command lemmas characterise |
| Attributes.AttributesCharacterised | src/nnet3/nnet-analyze.cc:229-320 | both lists are sorted and unique; a variable is read (written) if and only if some access of the command reads (writes) it; side effects only for a backprop through an updatable component |
| Attributes.ResizeZeroedWritesItsMatrix | src/nnet3/nnet-analyze.cc:222-224 | a zeroing resize reads nothing and writes exactly its matrix's variables, of which there is at least one |
| Attributes.ZeroedAttributes | src/nnet3/nnet-analyze.cc:222-224 | a zeroing resize writes the block between its matrix's offsets and records no view access |
| Attributes.DistinctMatricesDisjoint | src/nnet3/nnet-analyze.cc:59-97 | views of different matrices share no variable |
| Attributes.EntryDecides | src/nnet3/nnet-analyze.cc:158-182 | when one access alone touches a variable, that access decides whether the variable is read and written |
| Attributes.PropagateAccesses | src/nnet3/nnet-analyze.cc:229-235 | propagation reads its input without writing it; it writes its output, and also reads the output exactly when the component adds or the output does not span all rows |
| Attributes.BackpropAccesses | src/nnet3/nnet-analyze.cc:238-248 | backprop writes the input derivative, and also reads it exactly when the component adds or the view does not span all rows; side effects exactly for an updatable component |
| Attributes.CopyRowsDestination | src/nnet3/nnet-analyze.cc:261-272 | a row copy writes its destination, and also reads it exactly when an index is -1 or the view does not span all rows |
| Attributes.MultiTargetsAccessed | src/nnet3/nnet-analyze.cc:273-306 | each multi-row source is read; the to-rows forms also write it |
| Attributes.CopyRowsMultiDestination | src/nnet3/nnet-analyze.cc:283-294 | a multi-row copy's destination is a plain write, read only when it does not span all rows |
| Accesses.HistoryCharacterised | src/nnet3/nnet-analyze.cc:323-367 | a variable's history lists, in strictly increasing command order, exactly the commands that touch it, each with its kind of access |
| Accesses.HistoryEntry | src/nnet3/nnet-analyze.cc:345-365 | each history entry is a command that touches the variable, with the access kind of read, write or read-write |
| Accesses.ComputeVariableAccesses | src/nnet3/nnet-analyze.cc:323-367 | one history per variable, equal to the characterised history |
| Accesses.LastResizeCharacterised | src/nnet3/nnet-analyze.cc:393-410 | the recorded allocation (release) is -1 exactly when no command allocates (frees) the matrix, and is otherwise the last command that does |
| Accesses.ResizeCheckPasses | src/nnet3/nnet-analyze.cc:393-410 | the resize bookkeeping fails if and only if two commands allocate, or two free, the same matrix |
| Accesses.AccessCommandsCharacterised | src/nnet3/nnet-analyze.cc:378-388 | a matrix's access list is non-decreasing and holds exactly the commands that touch one of its variables |
| Accesses.IoStep | src/nnet3/nnet-analyze.cc:413-439 | handling one input/output entry keeps one bookkeeping entry per matrix; the flags it sets are characterised by the next row |
| Accesses.IoFlagsCharacterised | src/nnet3/nnet-analyze.cc:408-441 | on success from cleared flags, a matrix is flagged as an input (output) exactly when some entry names it as one, and nothing else changes |
| Accesses.IoFlagsSucceeds | src/nnet3/nnet-analyze.cc:408-441 | from cleared flags, flagging succeeds if and only if every entry names a value matrix other than 0 that exists and a node that is an input or an output, and no two entries name the same matrix as an input, or the same matrix as an output (a derivative matrix of one entry included) |
| Accesses.IoStepSucceeds | src/nnet3/nnet-analyze.cc:413-439 | one entry is accepted exactly when it is acceptable and sets no flag an earlier entry set |
| Accesses.AddAccesses | src/nnet3/nnet-analyze.cc:381-388 | appends the command once to each matrix per variable of that matrix in the list, and changes nothing else |
| Accesses.RecordResize | src/nnet3/nnet-analyze.cc:390-406 | records an allocation or a release, and fails with the source's message exactly when it repeats one |
| Accesses.RecordCommands | src/nnet3/nnet-analyze.cc:378-407 | the command loop yields the characterised bookkeeping, or the first resize error |
| Accesses.MarkEntry | src/nnet3/nnet-analyze.cc:413-439 | sets the flags of one input/output entry as the step function describes |
| Accesses.SetIoFlags | src/nnet3/nnet-analyze.cc:408-441 | the entry loop yields the flags the characterisation describes, or the first failure; it fails exactly in the cases `IoFlagsSucceeds` lists |
| Accesses.MatrixAccessesCharacterised | src/nnet3/nnet-analyze.cc:369-442 | on success: no repeated resize, each matrix's last allocation and release, its access commands, and its input/output flags |
| Accesses.ComputeMatrixAccesses | src/nnet3/nnet-analyze.cc:369-442 | equals the characterised bookkeeping |
| IndexCheck.CheckResize | src/nnet3/nnet-analyze.cc:591-596 | passes if and only if the resize names a matrix in range |
| IndexCheck.CheckPropagate | src/nnet3/nnet-analyze.cc:597-625 | passes if and only if the propagation is well formed (component, precomputed slot, views, dimensions, rows, in-place support), with the source's messages in order |
| IndexCheck.CheckStoreStats | src/nnet3/nnet-analyze.cc:626-636 | passes if and only if the component stores statistics and the view exists and is as wide as its output |
| IndexCheck.CheckBackpropConsistent | src/nnet3/nnet-analyze.cc:656-689 | after the range tests: passes if and only if the needed operands are supplied, the backprop has an effect, in-place use is supported, and dimensions and rows agree |
| IndexCheck.CheckBackprop | src/nnet3/nnet-analyze.cc:638-690 | passes if and only if the backprop is well formed |
| IndexCheck.CheckCopyAdd | src/nnet3/nnet-analyze.cc:692-702 | passes if and only if the two views are distinct, exist and have the same shape |
| IndexCheck.MaxElement | src/nnet3/nnet-analyze.cc:714-716 | the maximum of a non-empty list is one of its elements and bounds them all |
| IndexCheck.CheckRows | src/nnet3/nnet-analyze.cc:703-720 | passes if and only if there is one index per destination row, each below the source's row count, and the views are distinct and equally wide |
| IndexCheck.CheckPair | src/nnet3/nnet-analyze.cc:737-751 | passes if and only if the pair is (-1, -1) or a row of an equally wide view other than the destination |
| IndexCheck.CheckPairsFrom | src/nnet3/nnet-analyze.cc:736-752 | passes if and only if every pair from the start position on is well formed |
| IndexCheck.CheckDuplicates | src/nnet3/nnet-analyze.cc:753-772 | passes if and only if no pair other than (-1, …) occurs twice; a failure names a repeated pair |
| IndexCheck.CheckMulti | src/nnet3/nnet-analyze.cc:721-775 | passes if and only if the multi command is well formed, duplicates being rejected only for the to-rows forms |
| IndexCheck.CheckRangesFrom | src/nnet3/nnet-analyze.cc:790-797 | passes if and only if every range from the start position on lies inside the source's rows |
| IndexCheck.CheckRowRanges | src/nnet3/nnet-analyze.cc:776-799 | passes if and only if the add-row-ranges command is well formed, reading the range list its range test covers |
| IndexCheck.CheckCommand | src/nnet3/nnet-analyze.cc:589-805 | passes if and only if the command is well formed for its type |
| IndexCheck.CheckIndexesFrom | src/nnet3/nnet-analyze.cc:588-806 | passes if and only if every command from the start position on is well formed; otherwise it reports the first failing command's message |
| IndexCheck.WellFormedInRange | src/nnet3/nnet-analyze.cc:581-807 | a well-formed command names only operands that exist, as the attribute computation needs |
| IndexCheck.AcceptedIndexesInRange | src/nnet3/nnet-analyze.cc:581-807 | every command of a computation that passes the index pass is in range |
| IndexCheck.AcceptedToRowsMultiWritesOnce | src/nnet3/nnet-analyze.cc:753-772 | in an accepted computation, a to-rows-multi command never writes the same row twice |
| PairOrder.SortPairs | src/nnet3/nnet-analyze.cc:757-758 | the sorted copy is lexicographically sorted and is a permutation of the pairs |
| PairOrder.FirstAdjacentDuplicate | src/nnet3/nnet-analyze.cc:759-770 | the scan finds an adjacent equal pair other than (-1, …), and returns -1 exactly when there is none |
| PairOrder.SortedScanFindsDuplicates | src/nnet3/nnet-analyze.cc:753-772 | scanning the sorted copy finds a duplicate if and only if the original list has one |
| Checker.OrderCheck | src/nnet3/nnet-analyze.cc:813-838 | passes if and only if forward_computation_end indexes a marker, there is no other marker, no backprop comes before it and no propagate or store-stats comes after it |
| Checker.PlacementsCheck | src/nnet3/nnet-analyze.cc:822-837 | passes if and only if every command from the start position on is on the right side of the marker |
| Checker.LifetimeCheck | src/nnet3/nnet-analyze.cc:545-572 | passes if and only if: an input is never allocated; a non-input is allocated, used, and first accessed no earlier than its allocation; an output is never freed; a non-output is freed, used, and last accessed before its release |
| Checker.LifetimesCheck | src/nnet3/nnet-analyze.cc:540-574 | passes if and only if every matrix from the start position on keeps its lifetime |
| Checker.UndefinedCheckAt | src/nnet3/nnet-analyze.cc:519-530 | passes if and only if the variable is used and its first access is a plain write, unless its matrix is an input |
| Checker.UndefinedCheck | src/nnet3/nnet-analyze.cc:516-532 | passes if and only if every variable from the start position on is defined before it is read |
| Checker.FirstPureRead | src/nnet3/nnet-analyze.cc:491-499 | the first read-only access at or after the start position, or -1 when there is none |
| Checker.RewriteCheckAt | src/nnet3/nnet-analyze.cc:484-508 | passes if and only if the variable is used and, once only read, it is only read from then on |
| Checker.RewriteCheck | src/nnet3/nnet-analyze.cc:481-510 | passes if and only if every variable from the start position on passes the rewrite test |
| Checker.CheckVariableRewrite | src/nnet3/nnet-analyze.cc:484-508 | the two scans for one variable give the rewrite test's outcome |
| Checker.PassesCheck | src/nnet3/nnet-analyze.cc:466-470 | the order, lifetime and defined-before-read passes, then the rewrite pass if enabled; passes if and only if all of them hold |
| Checker.CheckSpec | src/nnet3/nnet-analyze.cc:447-471 | acceptance implies a successful analysis, a passed index pass and a well-formed command order |
| Checker.Tables | src/nnet3/nnet-analyze.cc:459-465 | once the analysis and the index pass succeed, there is one attribute entry per command and one history per variable, and every variable's matrix has bookkeeping |
| Checker.AnalysisFeedsPasses | src/nnet3/nnet-analyze.cc:457-465 | after a successful analysis and index pass, each later stage gets what it needs: commands in range, resizes naming matrices, sorted attribute lists of owned variables |
| Checker.AcceptedUnfolds | src/nnet3/nnet-analyze.cc:457-471 | an accepted computation has the tables Check computes, and every pass holds on them |
| Checker.AllocationMeaning | src/nnet3/nnet-analyze.cc:549-557 | the allocation conditions on the bookkeeping mean that exactly one command allocates the matrix, before every command that touches it |
| Checker.ReleaseMeaning | src/nnet3/nnet-analyze.cc:559-572 | the release conditions on the bookkeeping mean that exactly one command frees the matrix, after every command that touches it |
| Checker.LifetimeMeaning | src/nnet3/nnet-analyze.cc:545-578 | the lifetime conditions restated about the commands: an input is never allocated, an output never freed, and any other matrix is allocated once first and freed once last |
| Checker.AcceptedMatrixLifetime | src/nnet3/nnet-analyze.cc:540-574 | in an accepted computation every matrix is allocated once before its uses unless it is an input, and freed once after them unless it is an output |
| Checker.DefinedMeaning | src/nnet3/nnet-analyze.cc:522-536 | a history that starts with a write (or belongs to an input) means that the first command touching the variable writes it |
| Checker.AcceptedVariableDefined | src/nnet3/nnet-analyze.cc:516-532 | in an accepted computation every variable is used, and its first use writes it unless its matrix is an input of the computation |
| Checker.NoRewriteMeaning | src/nnet3/nnet-analyze.cc:481-510 | the rewrite test on the history holds if and only if no command writes the variable after a command that only reads it |
| Checker.AcceptedNoRewrite | src/nnet3/nnet-analyze.cc:481-510 | with rewrite checking on, an accepted computation never writes a variable after a read-only access, and every variable is used |
| Checker.ViewsWithinVariables | src/nnet3/nnet-analyze.cc:59-97 | every view's range lies among the computation's variables |
| Checker.AttributesWithinVariables | src/nnet3/nnet-analyze.cc:210-321 | a command's attribute lists name only the computation's variables |
| Checker.ComputationChecker.constructor | src/nnet3/nnet-analyze.cc:447-455 | stores the configuration, network and computation, runs the variable analysis and records its outcome |
| Checker.ComputationChecker.CheckComputationIndexes | src/nnet3/nnet-analyze.cc:581-807 | the command loop gives the index pass's outcome |
| Checker.ComputationChecker.CheckComputationOrder | src/nnet3/nnet-analyze.cc:813-838 | the marker test and the command loop give the order pass's outcome |
| Checker.ComputationChecker.CheckComputationMatrixAccesses | src/nnet3/nnet-analyze.cc:540-579 | the matrix loop, from matrix 1 on, gives the lifetime pass's outcome |
| Checker.ComputationChecker.CheckComputationUndefined | src/nnet3/nnet-analyze.cc:516-538 | the variable loop gives the defined-before-read pass's outcome |
| Checker.ComputationChecker.CheckComputationRewrite | src/nnet3/nnet-analyze.cc:481-514 | the variable loop gives the rewrite pass's outcome |
| Checker.ComputationChecker.ComputeTables | src/nnet3/nnet-analyze.cc:459-465 | the attributes, variable histories and matrix bookkeeping equal their characterised values |
| Checker.ComputationChecker.RunPasses | src/nnet3/nnet-analyze.cc:466-470 | runs the passes in the source's order and stops at the first failure |
| Checker.ComputationChecker.Check | src/nnet3/nnet-analyze.cc:457-471 | the outcome is the checker's specification; on acceptance the stored tables are the characterised ones; the checker stays valid |
| Request.IndexForName | src/nnet3/nnet-computation.cc:50-60 | fails if and only if two entries have the name; otherwise it returns the one position holding the name, or -1 when no entry has it |
| Request.IndexForInput | src/nnet3/nnet-computation.cc:50-60 | the same lookup over the inputs, failing with "Two inputs with the same name" |
| Request.IndexForOutput | src/nnet3/nnet-computation.cc:62-72 | the same lookup over the outputs |
| Request.ScanDerivatives | src/nnet3/nnet-computation.cc:25-46 | fails if and only if a derivative is requested but no output supplies one; otherwise it returns whether a derivative is requested |
| Request.NeedDerivatives | src/nnet3/nnet-computation.cc:25-48 | corrected: true exactly when a model or input derivative is requested, and otherwise the error "You requested model derivatives or input derivatives, but provide no derivatives at the output." |
| IrBuilder.NnetComputation.NewMatrix | src/nnet3/nnet-computation.cc:121-131 | creates the reserved entries first if the computation is empty, then appends the matrix and a whole-matrix view of it, and returns that view's index; keeps the invariant `Valid()` (the reserved entries at index 0, at least as many views as matrices; earlier views may have any rows) |
| IrBuilder.NnetComputation.NewSubMatrix | src/nnet3/nnet-computation.cc:107-118 | appends a view of all rows and the given columns and returns its index; keeps `Valid()`; the view is whole exactly when it spans every column |
| Ir.IsWholeMatrix | src/nnet3/nnet-computation.cc:372-379 | a whole-matrix view covers exactly the elements of its matrix, and a non-empty view that covers exactly them is a whole-matrix view |
| Ir.SameElementsWhole | src/nnet3/nnet-computation.cc:372-379 | a non-empty view covering exactly its matrix's elements starts at row and column 0 and has the matrix's size |
| Ir.GetSubmatrixStrings | src/nnet3/nnet-computation.cc:137-157 | one name per view: "[]" for view 0, and otherwise each view's name |
| Ir.RangeSuffix | src/nnet3/nnet-computation.cc:149-152 | the range part of a partial view's name is parenthesised |
| Ir.WholeViewNameNamesMatrix | src/nnet3/nnet-computation.cc:146-148 | a whole view's name is "m" followed by a numeral that parses back to its matrix index |
| Ir.PartialViewNameHasRange | src/nnet3/nnet-computation.cc:149-153 | a partial view's name is "m", its matrix numeral, then a parenthesised range |
| Ir.WholeAndPartialNamesDiffer | src/nnet3/nnet-computation.cc:146-153 | a whole view and a partial view never get the same name |
| Decimal.IntRoundTrip | src/nnet3/nnet-computation.cc:147-152 | the decimal text of an integer is a numeral that parses back to the integer |
| Decimal.IntToStringInjective | src/nnet3/nnet-computation.cc:147-152 | different integers get different decimal texts |
| Attributes.AccessTableAsWritten | src/nnet3/nnet-analyze.cc:229-248 | as written: the accesses the source records, with the propagate operands and the backprop adds flag of lines 230-234 and 242 |
| Attributes.AttributesAsWrittenCharacterised | src/nnet3/nnet-analyze.cc:229-248 | as written: a variable is read (written) exactly when some as-written access reads (writes) it |
| Attributes.PropagateAsWrittenWritesInput | src/nnet3/nnet-analyze.cc:229-235 | as written, a propagation without precomputed indexes (`arg2` is 0) writes its input `arg3` and never writes its output `arg4`; the corrected attributes do the reverse |
| Attributes.BackpropAsWrittenMissesAdds | src/nnet3/nnet-analyze.cc:242-245 | as written, a backprop whose component adds to its input derivative can be recorded as a plain write |
| Attributes.StoreStatsAsWrittenDiffers | src/nnet3/nnet-analyze.cc:236-238 | as written, store-stats falls through into the backprop case and records backprop operands and side effects |
| IndexCheck.StoreStatsAsWrittenRejectsWellFormed | src/nnet3/nnet-analyze.cc:626-642 | as written, a well-formed store-stats command is rejected |
| IndexCheck.BackpropAsWrittenRejectsWellFormed | src/nnet3/nnet-analyze.cc:641-642 | as written, a well-formed backprop is rejected |
| IndexCheck.NoEffectAsWrittenMisses | src/nnet3/nnet-analyze.cc:660-664 | as written, a backprop with no input derivative through a non-updatable component that has any property passes the no-effect test |
| IndexCheck.OutputRowsAsWrittenRejectsMatch | src/nnet3/nnet-analyze.cc:684-686 | as written, a supplied output value whose rows match the output derivative's rows is rejected |
| IndexCheck.RowRangesAsWrittenRejectsWellFormed | src/nnet3/nnet-analyze.cc:776-786 | as written, a well-formed add-row-ranges command is rejected |
| Request.NeedDerivativesAsWritten | src/nnet3/nnet-computation.cc:25-48 | as written: the same error and message as `NeedDerivatives`, but the answer is always false |
| Request.NeedDerivativesAsWrittenDiffers | src/nnet3/nnet-computation.cc:25-48 | whenever a derivative is requested and an output supplies one, the corrected version answers true and the as-written version false |
| Request.NeedDerivativesDifferOnModelDerivative | src/nnet3/nnet-computation.cc:25-48 | a request for a model derivative with an output derivative supplied: the corrected answer is true, the as-written one false |

## Left out

- Integer width: indices and dimensions are unbounded integers. The int32 arithmetic of the
  source, and its `static_cast<size_t>` comparisons, are modelled by their intended meaning
  (negative means out of range).
- Undefined behaviour: the source reads vectors out of range in places it never checks. The
  model states these as preconditions instead:
  - `Attributes.CommandInRange`: operands of the attribute computation, guaranteed by a passed
    index pass (`IndexCheck.AcceptedIndexesInRange`);
  - `Accesses.ResizesInRange`: the matrix of a resize command;
  - `Accesses.DerivsInRange`: derivative matrices of the input/output map;
  - `Accesses.VariablesOwned`: the matrix of every variable the attributes list. The source
    asserts this at `src/nnet3/nnet-analyze.cc:386`, and the analysis guarantees it
    (`Checker.AnalysisFeedsPasses`);
  - the `indexes_ranges` entry at `arg2` that the add-row-ranges check reads without testing
    it.
- `Variables.WellIndexed`: the analysis requires every view to name an existing matrix. The
  source pushes a view's boundaries into the list of its matrix index without a range test
  (`src/nnet3/nnet-analyze.cc:38`), so a missing matrix is an out-of-range write.
- `Variables.Indexable`: this is no longer a precondition of the analysis. It is what a
  successful analysis establishes (`Variables.AnalyzeDescribes`): every view but view 0
  refers to a matrix other than 0. The attribute, access and checking stages run only after
  a successful analysis, and they require it.
- `Variables.SubmatrixRange`: a view of matrix 0 is looked up among that matrix's boundaries
  in the order they were pushed. Matrix 0 is never sorted, and its offset is 0. The source
  uses `std::lower_bound`, which is defined only on an ordered list. The model uses a linear
  first-not-smaller scan, which agrees with it whenever the list is ordered.
- `Variables.ComputationVariables.ComputeVariableToMatrix`: when a view refers to matrix 0,
  the model reports the assertion against a second owner (line 115) without running the
  marking loop. `Variables.ReservedViewClashes` shows that the loop reaches that assertion
  when there are at least two matrices. The model does not capture an out-of-range write the
  loop can make before that, which happens when matrix 0 is the only matrix or when a view of
  matrix 0 reaches past the last variable.
- `std::max_element` of an empty index list: `IndexCheck.CheckRows` skips the row-index test
  when the list is empty. The source dereferences the end iterator there.
- `ComputationChecker` constructor: the variable analysis's assertions abort construction in
  the source. The model records the analysis's outcome in the object, and `Check` reports it
  first.
- Failures: a `KALDI_ERR` or `KALDI_ASSERT` in the analysis, the checks and the request
  queries becomes an error result carrying the message. The model does not distinguish
  exceptions from aborts. The assertions listed in the next lines are the exceptions.
- Ir.IsWholeMatrix: the assertion `0 < index < |sub_matrices|` (`src/nnet3/nnet-computation.cc:373`)
  and the unchecked read of the view's matrix (line 375) are the precondition
  `0 < index && ViewResolves(comp, index)`, not error results.
- Ir.GetSubmatrixStrings: the assertion that views exist (`src/nnet3/nnet-computation.cc:141`)
  and the existence of each view's matrix, which `IsWholeMatrix` reads unchecked, are
  preconditions, not error results.
- IrBuilder.NnetComputation.NewMatrix, IrBuilder.NnetComputation.NewSubMatrix: their
  assertions (`src/nnet3/nnet-computation.cc:109`, 112, 114 and 122) are preconditions, not
  error results: positive sizes, an existing matrix and columns within it. Both also require
  `Valid()`: the reserved matrix and view at index 0 once anything exists, and at least as many
  views as matrices (the assertion at line 114). The source does not test the reserved
  entries; a computation built only by the constructor and these two methods always has them.
- Variables.ComputationVariables.GetMatrixForVariable,
  Variables.ComputationVariables.AppendVariablesForSubmatrix,
  Variables.ComputationVariables.AppendVariablesForMatrix: their range assertions
  (`src/nnet3/nnet-analyze.cc:132`, 139 and 149-150) are preconditions, not error results.
- Accesses.ComputeVariableAccesses: the sorted-and-unique assertions on the attribute lists
  (`src/nnet3/nnet-analyze.cc:333-334`) are the precondition `AttributesWellFormed`, not error
  results. `Checker.AnalysisFeedsPasses` proves that the checker meets it.
- `input_output_info`: this `unordered_map` is a sequence in its iteration order. Which
  repeated flag is reported first therefore depends on that order, as in the source.
- `Nnet`, `Component` and `ComputationRequest` are not part of this model beyond the queries
  the analysis makes (`NnetOracle.Nnet`, `Request.ComputationRequest`). Component
  computations, index lists and the `CheckComputationConfig` fields other than `check_rewrite`
  are left out.
- `NnetComputation::ComputeCudaIndexes`, the destructor, `Print` and the other printing
  helpers are left out: they concern GPU copies, memory and output only.
- `Ir.GetSubmatrixStrings`: the network argument is never consulted and is dropped.
- `IndexCheck.CheckCommand`: the command type is a closed enumeration, so the "Unknown command
  type." branches of both switches cannot occur.

## Findings

| source | as written | input that shows it | evidently intended | confidence | as-written member | corrected member |
|---|---|---|---|---|---|---|
| src/nnet3/nnet-analyze.cc:229-234 | propagation records `arg2` (the precomputed-indexes slot) as a read view and `arg3` (the input) as the written output | a propagate command with no precomputed indexes (`arg2` is 0), an input view `arg3` and an output view `arg4`, each holding a variable the other does not | read the input `arg3`, and write (or read-write, if the component adds) the output `arg4` | not executed | Attributes.PropagateAsWrittenWritesInput | Attributes.PropagateAccesses |
| src/nnet3/nnet-analyze.cc:242 | the backprop adds flag is read from `GetComponent(c.arg1)`, but `arg1` is a node index | a backprop whose node index names a component without the adds flag while `arg2` names one with it | `GetComponent(c.arg2)`, as on line 246 | not executed | Attributes.BackpropAsWrittenMissesAdds | Attributes.BackpropAccesses |
| src/nnet3/nnet-analyze.cc:236-238 | the store-stats case has no `break`, so it also records the backprop operands `arg4`-`arg7` and the side-effects test | a store-stats command | record only the statistics view `arg2` as read | not executed | Attributes.StoreStatsAsWrittenDiffers | Attributes.AttributesCharacterised |
| src/nnet3/nnet-analyze.cc:626-637 | the store-stats check has no `break` and falls into the backprop check | a well-formed store-stats command in a network of one node | stop after the store-stats tests | not executed | IndexCheck.StoreStatsAsWrittenRejectsWellFormed | IndexCheck.CheckStoreStats |
| src/nnet3/nnet-analyze.cc:641-642 | a `;` ends the component-range `if`, so "Component index in backprop out of range" is raised for every backprop with a valid node | any well-formed backprop | raise it only when `arg2` is out of range | not executed | IndexCheck.BackpropAsWrittenRejectsWellFormed | IndexCheck.CheckBackprop |
| src/nnet3/nnet-analyze.cc:660 | `properties && kUpdatableComponent` is a logical test that holds for any non-zero property set | a backprop without an input derivative through a non-updatable component that has some other property | bitwise `properties & kUpdatableComponent` | not executed | IndexCheck.NoEffectAsWrittenMisses | IndexCheck.CheckBackprop |
| src/nnet3/nnet-analyze.cc:684-685 | `c.arg5 != 0 \|\| …` fires for every supplied output value | a backprop whose output value and output derivative have the same rows | `c.arg5 != 0 && …`, like the input test at line 680 | not executed | IndexCheck.OutputRowsAsWrittenRejectsMatch | IndexCheck.CheckBackprop |
| src/nnet3/nnet-analyze.cc:779-782 | the range test covers `arg3` but the ranges are read from `indexes_ranges[c.arg2]` | an add-row-ranges command from view 1 into view 2 with range list 0 = [(0, 1)], where list 1 is empty | read `indexes_ranges[c.arg3]` | not executed | IndexCheck.RowRangesAsWrittenRejectsWellFormed | IndexCheck.CheckRowRanges |
| src/nnet3/nnet-computation.cc:47 | `NeedDerivatives` returns `false` whatever it computed | a request for a model derivative with an output derivative supplied | `return ans;` | not executed | Request.NeedDerivativesAsWrittenDiffers | Request.NeedDerivatives |
