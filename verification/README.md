# Gazer in Dafny

Gazer turns programs into control flow automata, rewrites them, and encodes them as formulas for a
solver. This project models that core and proves that the rewritings keep their meaning and that the
mutable data structures underneath keep their invariants.

* **Expressions** (`Exprs`, `BitVectors`, `BitLaws`, `FoldingBuilder`, `ExprRewrite`, `FoldingLaws`): Bool,
  Int and bit-vector expressions with their values, the folding builder rule by rule, and variable rewriting. Where a
  folding rule does not keep the value, the lemma says exactly when it does and another one gives an
  input for which it does not.
* **Automata** (`Automata`, `AssignLists`): systems of automata with guarded assignments and calls.
  Their meaning is a machine with a call stack; undefined values are nondeterministic. Runs of the
  machine are shown to be exactly derivation trees, on which the transformations are proved.
* **Recursion into loops** (`UniqueError`, `TailInlining`, `BackEdges`, `TailInliningProof`,
  `CyclicToRecursive`, `RecursiveToCyclicProof`, `StaleLocals`, `RootRuns`, `InliningShape`,
  `RecursiveToCyclic`): tail-recursive calls of the root become loops. The worklist ends and, under the
  conditions below, the reachable error codes stay the same, and so does what the root does without failing.
* **Error lifting** (`ErrorLifting`, `CombinedErrors`, `LiftedRuns`, `LiftErrors`): errors of callees move
  into the entry procedure. A procedure is an automaton; an error location stands for a block that calls the
  error function, so nothing follows it.
* **Path conditions** (`PathConditions`, `CounterexampleWalk`, `SsaPaths`, `Dominators`): the formula
  for reaching a location, the walk back through a counterexample, and common (post-)dominators, each
  against plain quantification over paths.
* **Expression store** (`ExprTable`, `ExprNodes`, `ExprStore`): the hash-consed table with bucket
  chains, reference counts and the cascading delete. The fields of a node are maps over references;
  the allocator chooses any free address.
* **Graph and memory analyses** (`MemorySsa`, `ControlDependence`, `GraphPruning`, `FlatMemory`,
  `SExpr`): memory SSA renaming, control dependence, removal of unreachable locations, byte-level
  memory, and the s-expression reader and printer. Dominator trees and iterated dominance frontiers
  come from LLVM and enter as contracts stated by paths.

`dafny verify dfyconfig.toml` checks the whole project.

## Conditions of the main results

* Recursion into loops: self-calls are unguarded, go into the exit and hand the outputs on unchanged,
  as loops are translated (src/LLVM/Automaton/ModuleToAutomata.cpp:785-792); inputs are disjoint from
  outputs and locals, because temporaries are indexed by input number; error codes of callees are
  closed; nothing leaves an exit; nobody calls the root; the call graph without self-calls is acyclic.
  That every error and every run of the result is real holds for any locals. The converse is proved for loops whose
  locals and outputs are defined before use; `StaleLocals.ErrorIsLost` is a loop without that whose
  error is lost, because a back-edge keeps the values of the previous round.
* Error lifting: the call graph is acyclic and nobody calls the entry. The order in which procedures
  are looked at is bottom-up, as the traversal of strongly connected components gives it.
* SSA: every path from the source assigns each variable at most once and never reads it before or
  while it is assigned; all edges are assignments.
* Common dominators: the start comes before the sources of the targets (after the targets' ends for
  post-dominators). The other common dominators dominate the result exactly when some target can be
  reached or the last location of the region cannot; `Dominators.UnreachableSource` and
  `Dominators.UnreachedExit` are inputs where they do not.
* Folding: the division of a bit-vector literal by a literal zero aborts in the bit-vector library
  (src/Core/Expr/FoldingExprBuilder.cpp:626-629); rewriting through the folding builder is proved for
  expressions in which no such division and no inexact rule is met. Folding `0 / Y` to zero changes the
  value where `Y` is zero (`FoldingBuilder.ZeroDividendDiffers`).
* Where code and comment disagree the code is followed: the comment at
  src/Core/Expr/FoldingExprBuilder.cpp:496 has the arms of the new select in the other order than the
  code at line 498. The order of the comment keeps the value (`FoldingBuilder.UnswappedArmsSound`),
  that of the code only where the two arms agree.
* Counterexamples: an edge is reported by its ends, so a reported edge is true exactly when the first
  listed edge between the two locations is; `CounterexampleWalk.ParallelEdgesMislead` is an automaton
  with parallel edges where it is not.
* Booleans in memory: writing takes one byte while reading looks at all bytes of the access, so true is
  read back exactly when the further bytes are non-zero; `FlatMemory.TrueIsLost` is an input where they
  are not.
* S-expressions: white space before a closing parenthesis reads as one more atom, an empty one, and an atom
  at the end of the input loses its last character; `SExpr.ReadLayout` and `SExpr.LastAtom` state both.

## Model

| member | source | states |
|---|---|---|
| `Automata.StackIffDerivation` | include/gazer/Automaton/Cfa.h:69-173 | an error code is reachable by some run of the call-stack machine exactly when it has a derivation tree; every transformation result below is stated for the stack machine |
| `FoldingBuilder.FlattenAnd` | src/Core/Expr/FoldingExprBuilder.cpp:157-185 | the flattening loop returns the conjunction the builder's rules define: literals dropped, nested conjunctions merged, one operand returned bare |
| `FoldingBuilder.FlattenOr` | src/Core/Expr/FoldingExprBuilder.cpp:187-216 | the same for disjunctions |
| `FoldingBuilder.AndSound` | src/Core/Expr/FoldingExprBuilder.cpp:157-185 | the folded conjunction has the value of the plain one under every valuation |
| `FoldingBuilder.OrSound` | src/Core/Expr/FoldingExprBuilder.cpp:187-216 | the folded disjunction has the value of the plain one under every valuation |
| `FoldingLaws.AndLaws` | src/Core/Expr/FoldingExprBuilder.cpp:157-185 | a false literal decides a conjunction, a true one may be left out, a nested conjunction written out in its place; otherwise the operands stay in order, and one or none needs no conjunction |
| `FoldingLaws.OrLaws` | src/Core/Expr/FoldingExprBuilder.cpp:187-216 | the same for disjunctions |
| `FoldingBuilder.NotSound` | src/Core/Expr/FoldingExprBuilder.cpp:62-76 | negation folding keeps the value, including the De Morgan rules with their recursion |
| `FoldingBuilder.ImplySound` | src/Core/Expr/FoldingExprBuilder.cpp:218-241 | implication folding keeps the value |
| `FoldingBuilder.PlainEqSound` | src/Core/Expr/FoldingExprBuilder.cpp:243-255 | equality folding without the two select rules keeps the value |
| `FoldingBuilder.EqExact` | src/Core/Expr/FoldingExprBuilder.cpp:243-272 | equality folding keeps the value if and only if no select with equal literal arms is compared with its arm, or the select's condition is true anyway |
| `FoldingBuilder.EqualArmsDiffer` | src/Core/Expr/FoldingExprBuilder.cpp:261-264 | a concrete select with equal arms for which the first select rule changes the value |
| `FoldingBuilder.LtEqSound` | src/Core/Expr/FoldingExprBuilder.cpp:290-297 | `LtEq` with literal folding and constant shifting keeps the value |
| `FoldingBuilder.LtSound` | src/Core/Expr/FoldingExprBuilder.cpp:284-288 | `Lt` rewritten to a negated `LtEq` keeps the value |
| `FoldingBuilder.GtSound` | src/Core/Expr/FoldingExprBuilder.cpp:299-314 | `Gt` keeps the value |
| `FoldingBuilder.GtEqSound` | src/Core/Expr/FoldingExprBuilder.cpp:316-320 | `GtEq` keeps the value |
| `FoldingBuilder.SelectExact` | src/Core/Expr/FoldingExprBuilder.cpp:445-512 | select folding keeps value and type if and only if the nested-select rule that leaves its arms in the other order does not apply, or the two arms agree |
| `FoldingBuilder.SwappedArmsDiffer` | src/Core/Expr/FoldingExprBuilder.cpp:496-499 | a concrete nested select on which that rule changes the value |
| `FoldingBuilder.UnswappedArmsSound` | src/Core/Expr/FoldingExprBuilder.cpp:496-496 | with the arms in the order its comment gives, that rule keeps type and value under every valuation |
| `FoldingBuilder.ArithmeticExact` | src/Core/Expr/FoldingExprBuilder.cpp:539-659 | binary folding aborts exactly on a literal divided by a literal zero, and otherwise keeps the value if and only if it does not fold a zero dividend over a divisor that is zero |
| `FoldingBuilder.LiteralDivisionAborts` | src/Core/Expr/FoldingExprBuilder.cpp:625-629 | a concrete division of literals with a value on which building aborts |
| `FoldingBuilder.ZeroDividendDiffers` | src/Core/Expr/FoldingExprBuilder.cpp:639-652 | a concrete division of zero by a variable that is zero, whose folding to zero changes the value |
| `FoldingBuilder.ConcatSound` | src/Core/Expr/FoldingExprBuilder.cpp:136-155 | folding a concatenation of literals keeps the value |
| `FoldingBuilder.ExtractSound` | src/Core/Expr/FoldingExprBuilder.cpp:96-110 | extraction folding keeps the value, for the offsets and widths an extraction may have |
| `BitLaws.BitwiseBits` | src/Core/Expr/FoldingExprBuilder.cpp:630-632 | each bit of and, or and exclusive or is that function of the two bits |
| `BitLaws.ShiftedBits` | src/Core/Expr/FoldingExprBuilder.cpp:634-635 | shifting moves the bits as far as the width allows and fills up with zeros |
| `BitLaws.SignedShift` | src/Core/Expr/FoldingExprBuilder.cpp:636-636 | the arithmetic shift divides the number read with sign by a power of two, rounding down |
| `BitLaws.UnsignedDivision` | src/Core/Expr/FoldingExprBuilder.cpp:626-628 | dividend = divisor * quotient + remainder with a remainder below the divisor; all ones and the dividend for divisor zero |
| `BitLaws.SignedDivision` | src/Core/Expr/FoldingExprBuilder.cpp:627-629 | the same for numbers read with sign, rounding toward zero: the remainder has the sign of the dividend; only the least number divided by minus one wraps around |
| `BitLaws.WrappedArithmetic` | src/Core/Expr/FoldingExprBuilder.cpp:623-625 | adding what was subtracted gives the number back and multiplying by one more adds it once more, modulo the width |
| `BitLaws.ExtendKeeps` | src/Core/Expr/FoldingExprBuilder.cpp:78-94 | widening keeps the number, read without sign or with sign |
| `BitLaws.ExtractBits` | src/Core/Expr/FoldingExprBuilder.cpp:96-110 | bit i of the extract is bit offset + i |
| `BitLaws.ConcatBits` | src/Core/Expr/FoldingExprBuilder.cpp:136-155 | the bits of the right operand, then those of the left one |
| `BitLaws.BitsDecide` | src/Core/Expr/FoldingExprBuilder.cpp:618-638 | numbers of one width with the same bits are equal, so that the laws of the bits decide the results |
| `ExprRewrite.PlainRewrite` | src/Core/Expr/ExprRewrite.cpp:22-145 | rewriting with the plain builder is simultaneous substitution, for every expression |
| `ExprRewrite.FoldingRewrite` | src/Core/Expr/ExprRewrite.cpp:22-145 | rebuilding a well-typed expression bottom-up with the folding builder keeps its value under every valuation whenever no inexact rule and no aborting division is met on the way |
| `ExprRewrite.SimultaneousSubstitution` | src/Core/Expr/ExprRewrite.cpp:133-145 | the rewritten expression under v has the value of the original under v updated, all at once, by the values of the mapped expressions |
| `FoldingLaws.ConstantsFold` | src/Core/Expr/ExprRewrite.cpp:22-145 | rewriting with a literal for every variable, through the folding builder, leaves the literal that the expression is worth, whenever all its nodes are of kinds the builder computes and no division by zero is met |
| `BackEdges.BackEdgeIsParallel` | src/Automaton/RecursiveToCyclicCfa.cpp:179-209 | the temporaries-then-inputs list of a back-edge, run in order, gives every input its recursive argument as computed before the list: one parallel assignment |
| `UniqueError.FindErrors` | src/Automaton/RecursiveToCyclicCfa.cpp:287-292 | the collected list holds exactly the error locations, in order |
| `UniqueError.WireErrors` | src/Automaton/RecursiveToCyclicCfa.cpp:304-313 | every listed error location gets an edge that stores its code in the error field |
| `UniqueError.UniqueErrorKeepsErrors` | src/Automaton/RecursiveToCyclicCfa.cpp:282-315 | adding the unique error location changes no reachable error code |
| `UniqueError.GoalIsAttached` | src/Automaton/RecursiveToCyclicCfa.cpp:297-313 | some edge ends in the unique error location, also when the root has no error of its own |
| `RecursiveToCyclic.IsTailRecursive` | src/Automaton/CallGraph.cpp:44-62 | true exactly for automata that call themselves and only into their exit, written out over the edges |
| `RecursiveToCyclic.BuildTempArgs` | src/Automaton/RecursiveToCyclicCfa.cpp:179-196 | the first loop builds the assignments to the temporaries |
| `RecursiveToCyclic.BuildInputArgs` | src/Automaton/RecursiveToCyclicCfa.cpp:198-209 | the second loop builds the assignments to the inputs |
| `RecursiveToCyclic.BuildEntryArgs` | src/Automaton/RecursiveToCyclicCfa.cpp:259-266 | the entry edge passes the arguments of the inlined call |
| `RecursiveToCyclic.NameVariables` | src/Automaton/RecursiveToCyclicCfa.cpp:104-140 | locals, inputs and temporaries get pairwise different new variables; outputs stand for the variables the call stores them in |
| `RecursiveToCyclic.AppendClones` | src/Automaton/RecursiveToCyclicCfa.cpp:154-257 | all edges of the callee are cloned, recursive calls become back-edges, calls to other tail-recursive automata join the worklist and the pending cost grows by exactly theirs |
| `RecursiveToCyclic.BuildEdges` | src/Automaton/RecursiveToCyclicCfa.cpp:142-279 | the edges of the root after one inlining, and a worklist whose pending cost is one less than the full expansion of the inlined call |
| `InliningShape.StaysReady` | src/Automaton/RecursiveToCyclicCfa.cpp:94-280 | one inlining keeps everything the next one needs of the root |
| `CyclicToRecursive.CyclicErrorsAreReal` | src/Automaton/RecursiveToCyclicCfa.cpp:94-280 | every error code of the root after an inlining was reachable before it, whatever the callee's variables start with |
| `RecursiveToCyclicProof.InliningKeepsErrors` | src/Automaton/RecursiveToCyclicCfa.cpp:94-280 | with locals and outputs of the callee defined before use, the error codes reachable before and after an inlining are the same |
| `RootRuns.CyclicRunsAreReal` | src/Automaton/RecursiveToCyclicCfa.cpp:94-280 | after an inlining the root arrives at any of its own locations, its exit among them, only with values of its own variables with which it could arrive there before |
| `RootRuns.RootStillRuns` | src/Automaton/RecursiveToCyclicCfa.cpp:94-280 | with locals and outputs of the callee defined before use, it still arrives wherever it did, with the same values |
| `StaleLocals.ErrorIsLost` | src/Automaton/RecursiveToCyclicCfa.cpp:170-216 | a loop with an unassigned local whose error is reachable before the inlining while no error is after it |
| `RecursiveToCyclic.GoalIffFailure` | src/Automaton/RecursiveToCyclicCfa.cpp:62-92 | the system can fail with code k exactly when the unique error location is reached with k in the error field, or a callee fails with k where the root calls it |
| `RecursiveToCyclic.ClearingKeepsErrors` | src/Automaton/RecursiveToCyclicCfa.cpp:81-81 | dropping disconnected edges changes no reachable error code |
| `RecursiveToCyclic.NoCalleeFails` | src/Automaton/RecursiveToCyclicCfa.cpp:62-92 | when no callee of the root's calls can fail with a code in the input, no call of the changed root fails with it |
| `RecursiveToCyclic.Transformer.AddUniqueErrorLocation` | src/Automaton/RecursiveToCyclicCfa.cpp:282-315 | the root with the unique error location, a new error field, and some edge that ends in that location |
| `RecursiveToCyclic.Transformer.CollectCalls` | src/Automaton/RecursiveToCyclicCfa.cpp:66-72 | the worklist holds exactly the calls of the root to tail-recursive automata |
| `RecursiveToCyclic.Transformer.InlineCallIntoRoot` | src/Automaton/RecursiveToCyclicCfa.cpp:94-280 | the root becomes the inlined one, keeping its entry, exit and own variables; the worklist stays exact and the pending cost falls |
| `RecursiveToCyclic.Transformer.InlineLast` | src/Automaton/RecursiveToCyclicCfa.cpp:74-80 | one round of the worklist: error codes and runs of the root stay those of the input and the pending cost falls |
| `RecursiveToCyclic.Transformer.ClearDisconnectedElements` | include/gazer/ADT/Graph.h:195-203 | exactly the disconnected edges are gone, and exactly the locations that some edge touches remain, both in order |
| `RecursiveToCyclic.Transformer.Transform` | src/Automaton/RecursiveToCyclicCfa.cpp:62-92 | the worklist ends; afterwards no edge calls a tail-recursive automaton or is disconnected, every error code of the result is an error code of the input, and the two sets are equal when loops define their variables before use; reaching the unique error location with a code says the input can fail with it, and for such loops the input fails with a code exactly when the unique error location is reached with it or a remaining call fails with it; so exactly when it is reached, whenever no callee of a remaining call can fail with that code in the input; the root arrives at its own locations, its exit among them, with a valuation of its own variables only if it did before, and exactly if it did before for such loops; the remaining locations are those the remaining edges touch, and the unique error location is always one of them |
| `ErrorLifting.FailsMayFail` | src/LLVM/Transform/LiftErrorsPass.cpp:165-204 | whatever can fail has a chain of calls to a procedure with an error of its own |
| `ErrorLifting.LiftedErrorsAreReal` | src/LLVM/Transform/LiftErrorsPass.cpp:221-316 | a failure of the lifted entry inside the copy of a procedure is a failure of that procedure with the same code |
| `ErrorLifting.ErrorsAreLifted` | src/LLVM/Transform/LiftErrorsPass.cpp:221-316 | a failure of a procedure is found in its shared copy inside the lifted entry |
| `ErrorLifting.LiftingKeepsErrors` | src/LLVM/Transform/LiftErrorsPass.cpp:221-316 | for an acyclic call graph the lifted entry reaches its single error location with code k exactly when the original program can fail with code k on its call stack |
| `CombinedErrors.CombiningKeepsErrors` | src/LLVM/Transform/LiftErrorsPass.cpp:136-159 | one error block per procedure changes no reachable error code of any procedure |
| `LiftedRuns.LiftingKeepsRuns` | src/LLVM/Transform/LiftErrorsPass.cpp:221-316 | lifting keeps the exit and the runs of every procedure to its own locations: a copy in the entry is never left again, so nothing that goes through one arrives where the entry itself goes |
| `LiftedRuns.PassKeepsRuns` | src/LLVM/Transform/LiftErrorsPass.cpp:205-316 | the same for combining and lifting together |
| `LiftErrors.FindFailures` | src/LLVM/Transform/LiftErrorsPass.cpp:163-204 | bottom-up detection is exact: recorded error calls and failing calls are those of the procedure, and a procedure is marked exactly when some chain of calls leads to an error |
| `LiftErrors.FindMayFailCalls` | src/LLVM/Transform/LiftErrorsPass.cpp:185-200 | the failing calls of one procedure, given its callees |
| `LiftErrors.NameCopies` | src/LLVM/Transform/LiftErrorsPass.cpp:235-247 | every variable of a copied procedure gets a new name of its own |
| `LiftErrors.CloneEdgesInto` | src/LLVM/Transform/LiftErrorsPass.cpp:246-247 | all edges are copied under the new names and locations |
| `LiftErrors.MakeJump` | src/LLVM/Transform/LiftErrorsPass.cpp:303-315 | the failing branch beside a call: same source and guard, the copy's parameters receive the arguments |
| `LiftErrors.AddJumps` | src/LLVM/Transform/LiftErrorsPass.cpp:293-316 | one failing branch for every listed call |
| `LiftErrors.LiftErrorCalls.CombineErrorsInFunction` | src/LLVM/Transform/LiftErrorsPass.cpp:136-159 | the procedure with its single error block |
| `LiftErrors.LiftErrorCalls.CombineErrors` | src/LLVM/Transform/LiftErrorsPass.cpp:212-219 | error blocks exactly in the procedures that may fail |
| `LiftErrors.LiftErrorCalls.CopyIntoEntry` | src/LLVM/Transform/LiftErrorsPass.cpp:230-291 | the entry holds the copy and keeps its own exit, the calls of the copy join the list of failing calls, the original loses its error |
| `LiftErrors.LiftErrorCalls.CopyBodies` | src/LLVM/Transform/LiftErrorsPass.cpp:224-291 | every other procedure that may fail is copied once and left without errors |
| `LiftErrors.LiftErrorCalls.Run` | src/LLVM/Transform/LiftErrorsPass.cpp:161-319 | nothing changes and nothing can fail when the entry cannot fail; otherwise the entry has one error location, all other procedures have none, and the reachable error codes are the same; every procedure, the entry included, keeps its entry and exit and has exactly the runs to its own locations that it had, with the same final values |
| `PathConditions.Equations` | src/Automaton/CfaUtils.cpp:93-106 | the equations of the defined assignments, true exactly when all of them hold |
| `PathConditions.EdgeFormula` | src/Automaton/CfaUtils.cpp:88-110 | the formula of an edge: its source's formula, its guard, and its equations or call formula |
| `PathConditions.EdgeFormulas` | src/Automaton/CfaUtils.cpp:79-114 | one formula for every incoming edge from inside the region, in order |
| `PathConditions.JoinTwo` | src/Automaton/CfaUtils.cpp:122-145 | two predecessors joined, told apart by a flag |
| `PathConditions.JoinMany` | src/Automaton/CfaUtils.cpp:146-177 | more predecessors joined, told apart by a number |
| `PathConditions.EncodeLocation` | src/Automaton/CfaUtils.cpp:75-178 | the formula and the recorded predecessor of one location |
| `PathConditions.PathConditionCalculator.Encode` | src/Automaton/CfaUtils.cpp:55-181 | the returned formula is true under v exactly when some path from source to target has all its guards, equations, call formulas and discriminators true; what is recorded and how many discriminators are used up |
| `PathConditions.PathConditionExact` | src/Automaton/CfaUtils.cpp:68-180 | without discriminators the formula is true under v exactly when some path has every guard, every defined equation and every call formula true |
| `CounterexampleWalk.Equisatisfiable` | src/Automaton/CfaUtils.cpp:115-178 | a valuation satisfying the discriminated formula makes some path true, and every valuation with a true path can be completed on the discriminators alone to satisfy it |
| `CounterexampleWalk.FindEdge` | tools/gazer-bmc/Verifier/BmcTrace.cpp:46-50 | the first incoming edge from the given source |
| `CounterexampleWalk.Advance` | tools/gazer-bmc/Verifier/BmcTrace.cpp:26-56 | the iterator stops exactly at the source and otherwise moves to a location that is reached over a true edge |
| `CounterexampleWalk.CreateTrace` | tools/gazer-bmc/Verifier/BmcTrace.cpp:69-113 | the reversed walk is a path from the source to the target whose states are the ends of its edges; all its edges are true if and only if wherever it goes the first listed edge between the two locations is true, so always without parallel edges |
| `CounterexampleWalk.ParallelEdgesMislead` | tools/gazer-bmc/Verifier/BmcTrace.cpp:46-55 | on a concrete automaton with two parallel edges the target can be reached, yet no reported trace is true edge by edge |
| `CounterexampleWalk.Walk` | tools/gazer-bmc/Verifier/BmcTrace.cpp:72-80 | under any satisfying valuation the walk ends exactly at the source, through locations joined by true edges; a reported edge is true if and only if the first listed edge between its two locations is, so always without parallel edges |
| `SsaPaths.TruePathIffRun` | src/Automaton/CfaUtils.cpp:94-104 | in SSA form some path is true under some valuation exactly when it can be executed, undefined assignments being arbitrary |
| `SsaPaths.SatisfiableIffReachable` | src/Automaton/CfaUtils.cpp:55-181 | on an acyclic SSA automaton the path condition, with or without discriminators, is satisfiable exactly when a concrete execution reaches the target |
| `Dominators.DominatorRow` | src/Automaton/CfaUtils.cpp:223-246 | one bit row from the rows of the predecessors |
| `Dominators.ComputeDominators` | src/Automaton/CfaUtils.cpp:213-246 | bit k of row i is set exactly when every path to i goes through k |
| `Dominators.HighestCommon` | src/Automaton/CfaUtils.cpp:248-268 | the last position that dominates all sources; the start always does |
| `Dominators.NoneReachable` | src/Automaton/CfaUtils.cpp:226-268 | when no source can be reached the last position of the region is found |
| `Dominators.FindLowestCommonDominator` | src/Automaton/CfaUtils.cpp:186-269 | the returned location is on every path to each target edge's source, and every other such location is on every path to it if and only if some source is reachable or the last location of the region is not; without a reachable source that last location is returned |
| `Dominators.FindHighestCommonPostDominator` | src/Automaton/CfaUtils.cpp:271-352 | the returned location is on every path from each target edge's target to the start, and every other such location is on every path from it if and only if some target reaches the start or the last location of the region does not; when no target does, that last location is returned |
| `Dominators.UnreachableSource` | src/Automaton/CfaUtils.cpp:226-268 | on a concrete input with no reachable source, the returned location is not dominated by another common dominator |
| `Dominators.UnreachedExit` | src/Automaton/CfaUtils.cpp:309-351 | the same for post-dominators |
| `ExprTable.Find` | src/Core/GazerContextImpl.h:361-368 | the chain walk finds a matching node of the bucket or shows there is none |
| `ExprTable.RemoveFromList` | src/Core/GazerContext.cpp:109-131 | exactly the node is unlinked from its chain, everything outside the bucket is untouched, its own next pointer is cleared |
| `ExprTable.MoveBucket` | src/Core/GazerContext.cpp:217-228 | the nodes of one old bucket are moved, each to the front of its new bucket, and the rest still hang on the old chains |
| `ExprTable.RehashTable` | src/Core/GazerContext.cpp:208-234 | the same nodes, each in the chain of its hash among the new buckets |
| `ExprNodes.EqualIffSameTree` | src/Core/GazerContextImpl.h:89-100 | two members of a canonical table are equal exactly when their expression trees are equal |
| `ExprNodes.SurvivorsAreReachable` | src/Core/GazerContext.cpp:133-206 | when the remaining nodes are unchanged and exactly counted, they are what was reachable from the remaining handles |
| `ExprStore.StepDecrement` | src/Core/GazerContext.cpp:185-189 | an operand with other references loses one and stays |
| `ExprStore.StepLast` | src/Core/GazerContext.cpp:164-168 | an operand whose last reference is given up is pointed at by nobody |
| `ExprStore.StepAppend` | src/Core/GazerContext.cpp:177-181 | an operator that leaves the table waits at the end of the list, linked through its next pointer |
| `ExprStore.StepLeaf` | src/Core/GazerContext.cpp:181-184 | a leaf that leaves the table is deleted at once |
| `ExprStore.StoreIsCanonical` | src/Core/GazerContextImpl.h:355-402 | in every valid store two references are equal exactly when their expression trees are equal |
| `ExprStore.StoreIsReachable` | src/Core/GazerContext.cpp:133-206 | a valid store holds exactly what its handles reach, and no operand dangles |
| `ExprStore.StoreIsHashed` | src/Core/GazerContextImpl.h:396-398 | in every valid store a node stands in the chain of a bucket exactly when that bucket is the remainder of its hash by the number of buckets |
| `ExprStore.ExprStorage.CreateIfNotExists` | src/Core/GazerContextImpl.h:355-402 | returns the handle of the expression with this label and operands; an existing node leaves nodes, buckets and chains as they are, a new one is the only change and stands in front of the bucket its hash leaves as remainder; the table doubles exactly when one more entry would reach three quarters of it; hash chains, counts and the load bound 4 * entries < 3 * buckets are kept |
| `ExprStore.ExprStorage.RehashTable` | src/Core/GazerContext.cpp:208-234 | the node set, counts and canonicity survive a larger table |
| `ExprStore.ExprStorage.RemoveFromTable` | src/Core/GazerContext.cpp:109-131 | an unused node leaves its chain and the entry count falls by one |
| `ExprStore.ExprStorage.ReleaseOperand` | src/Core/GazerContext.cpp:163-190 | one operand of a doomed node is given up and the delete stays consistent |
| `ExprStore.ExprStorage.Cascade` | src/Core/GazerContext.cpp:159-193 | the list of doomed operators grows and is worked off until none is left |
| `ExprStore.ExprStorage.Destroy` | src/Core/GazerContext.cpp:133-206 | afterwards the store is valid again and every survivor is unchanged |
| `ExprStore.ExprStorage.AddRef` | include/gazer/Core/Expr.h:178-180 | a copied handle is counted |
| `ExprStore.ExprStorage.Release` | include/gazer/Core/Expr.h:182-187 | after dropping a handle the nodes are exactly those reachable before from the remaining handles, all unchanged, counts are exact and the entry count is their number |
| `MemorySsa.CalculatePhiNodes` | src/LLVM/Memory/MemorySSA.cpp:236-251 | a block gets exactly as many phis of an object as its list of phi blocks names it, and none besides, in front of its accesses; so every dominance frontier of a definition has one |
| `MemorySsa.EdgeMeets` | src/LLVM/Memory/MemorySSA.cpp:236-251 | without a phi, what is live at the end of any predecessor is what is live at the immediate dominator's end |
| `MemorySsa.EveryPath` | src/LLVM/Memory/MemorySSA.cpp:259-318 | on every path to a use or ordinary definition the last definition executed is the one the dominator tree gives |
| `MemorySsa.RenamedOnEveryPath` | src/LLVM/Memory/MemorySSA.cpp:275-295 | the recorded reaching definition of a use is the last definition or phi of that object executed on every path to it |
| `MemorySsa.IncomingOnEveryPath` | src/LLVM/Memory/MemorySSA.cpp:297-305 | a phi's entry for a predecessor is the last definition executed on every path that ends in that predecessor |
| `MemorySsa.MemorySSABuilder.RenameAccesses` | src/LLVM/Memory/MemorySSA.cpp:261-295 | every access of the block gets the top of its object's stack and definitions are pushed |
| `MemorySsa.MemorySSABuilder.RenameSuccessorPhis` | src/LLVM/Memory/MemorySSA.cpp:297-305 | every phi of a successor learns what is live at the end of this block |
| `MemorySsa.MemorySSABuilder.Unwind` | src/LLVM/Memory/MemorySSA.cpp:312-317 | every stack is as it was before the block |
| `MemorySsa.MemorySSABuilder.RenameBlock` | src/LLVM/Memory/MemorySSA.cpp:259-318 | the whole dominator subtree is renamed correctly and every rename stack is left as it was found |
| `MemorySsa.MemorySSABuilder.RenamePass` | src/LLVM/Memory/MemorySSA.cpp:253-257 | all reachable blocks are renamed and all stacks end empty |
| `ControlDependence.AncestorsPostDominate` | src/LLVM/Analysis/PDG.cpp:50-51 | ancestors in the post-dominator tree are the blocks on every path to the exit |
| `ControlDependence.WalkUp` | src/LLVM/Analysis/PDG.cpp:52-63 | the blocks met are the post-dominators of the edge's target below the parent of its source |
| `ControlDependence.DependencesOf` | src/LLVM/Analysis/PDG.cpp:43-66 | what is recorded under a block is exactly what depends on it: post-dominating some successor other than the block itself, without strictly post-dominating the block |
| `ControlDependence.ControlDependences` | src/LLVM/Analysis/PDG.cpp:40-66 | the same for all blocks |
| `ControlDependence.UsualDefinition` | src/LLVM/Analysis/PDG.cpp:43-66 | what is recorded under a block agrees with the usual definition of control dependence if and only if the block has no self-edge or another successor comes back to it for certain |
| `ControlDependence.SelfEdgeIsMissed` | src/LLVM/Analysis/PDG.cpp:50-51 | on a concrete graph with its post-dominator tree, a block with a self-edge depends on itself by the usual definition and is not recorded |
| `GraphPruning.DisconnectNode` | include/gazer/ADT/Graph.h:170-184 | exactly the edges touching the node are dead, all other adjacency lists still agree with the end points |
| `GraphPruning.Visit` | src/Automaton/Cfa.cpp:233-239 | the visited set is exactly the set of nodes reachable from the entry |
| `GraphPruning.WalksSurvive` | src/Automaton/Cfa.cpp:231-249 | every walk from the entry survives when the edges with a reachable source are kept |
| `GraphPruning.Graph.CreateNode` | src/Automaton/Cfa.cpp:43-50 | a new node with empty adjacency lists |
| `GraphPruning.Graph.CreateEdge` | include/gazer/ADT/Graph.h:212-221 | a new edge is listed once at each end |
| `GraphPruning.Graph.DisconnectUnreachable` | src/Automaton/Cfa.cpp:233-246 | exactly the nodes the search does not visit are cut off |
| `GraphPruning.Graph.ClearDisconnectedElements` | include/gazer/ADT/Graph.h:195-203 | from any graph whose lists agree with its end points, exactly the nodes without edges and the edges with a null end are erased |
| `GraphPruning.Graph.RemoveUnreachableLocations` | src/Automaton/Cfa.cpp:231-249 | the remaining nodes are those reachable from the entry, except an entry without outgoing edges; the remaining edges are those with a reachable source, unchanged; every walk from the entry survives; adjacency lists agree with end points without duplicates or null ends |
| `FlatMemory.OffsetAddress` | src/LLVM/Memory/FlatMemoryModel.cpp:354-356 | adding an offset to a pointer is address arithmetic modulo the pointer width |
| `FlatMemory.BuildMemoryRead` | src/LLVM/Memory/FlatMemoryModel.cpp:710-727 | the value read is the number formed by the bytes, the first one lowest: byte i of it is the byte at address p + i, modulo the pointer width |
| `FlatMemory.BuildBoolRead` | src/LLVM/Memory/FlatMemoryModel.cpp:728-740 | a Boolean read is true exactly when all its bytes are non-zero |
| `FlatMemory.BuildMemoryWrite` | src/LLVM/Memory/FlatMemoryModel.cpp:760-793 | byte i of the value is stored at address p + i, modulo the pointer width, and no other byte changes; true is stored as the byte 1 and false as 0; values of at most eight bits take one byte; memory stays well formed |
| `FlatMemory.ReadAfterWrite` | src/LLVM/Memory/FlatMemoryModel.cpp:710-785 | reading n bytes where a value of 8 * n bits was written gives the value back, for n up to the size of the address space |
| `FlatMemory.BoolReadAfterWrite` | src/LLVM/Memory/FlatMemoryModel.cpp:728-793 | a Boolean read where a Boolean was written gives it back if and only if it is false or the further bytes read are non-zero; always when one byte is read |
| `FlatMemory.TrueIsLost` | src/LLVM/Memory/FlatMemoryModel.cpp:728-793 | a concrete memory in which true, written and read back over two bytes, comes out false |
| `FlatMemory.ReadElsewhere` | src/LLVM/Memory/FlatMemoryModel.cpp:710-785 | a read whose bytes are disjoint from those written, modulo the pointer width, is unchanged |
| `SExpr.DoParse` | src/Support/SExpr.cpp:27-56 | the loop over the list does what the recursive reader specifies, including the runs that never come back |
| `SExpr.Parse` | src/Support/SExpr.cpp:58-72 | a list is read back from any layout of it, with any of the six white-space characters around and between its parts; the input is refused exactly when it neither opens nor ends with a parenthesis; reading never comes back exactly when nothing is left of the input or its first parenthesis is never closed |
| `SExpr.Print` | src/Support/SExpr.cpp:84-100 | the printed text of a value is appended to the stream |
| `SExpr.PrintedNext` | src/Support/SExpr.cpp:88-96 | a further item is printed behind exactly one blank |
| `SExpr.ReadLayout` | src/Support/SExpr.cpp:27-56 | whatever blanks, tabs, newlines, vertical tabs, form feeds and carriage returns stand before the items of a list, at every depth, the same tree is read and nothing more taken off the input; white space is needed between two atoms only, and before a closing parenthesis it reads as one more, empty, atom |
| `SExpr.ReadIsLayout` | src/Support/SExpr.cpp:27-56 | conversely, every list the reader accepts stands in the input as such a layout |
| `SExpr.LastAtom` | src/Support/SExpr.cpp:46-54 | an atom with nothing behind it loses its last character |
| `SExpr.Trimmed` | src/Support/SExpr.cpp:61-61 | trimming takes the six white-space characters off both ends and nothing else |
| `SExpr.ParsePrinted` | src/Support/SExpr.cpp:27-100 | reading takes exactly the printed text of a value off the input |
| `SExpr.RoundTrip` | src/Support/SExpr.cpp:27-100 | parsing the printed text of a clean list gives the list back and uses up all input |
| `SExpr.StuckIffUnclosed` | src/Support/SExpr.cpp:27-56 | reading never comes back if and only if the input begins with a parenthesis and every prefix from there on opens more than it closes |
| `SExpr.UnclosedList` | src/Support/SExpr.cpp:37-39 | a concrete unclosed list on which the reader never comes back |

## Left out

- Floating-point, Real, array and tuple expressions, and integer literals beyond 64 bits wrapping around: literal integer arithmetic is unbounded here.
- Undefined values inside compound expressions: they read as the default of their type; only assigning an undefined value outright is nondeterministic.
- Whether the two select rules of `Eq` ever fire: they are modelled as written (src/Core/Expr/FoldingExprBuilder.cpp:261-269), while passing a typed reference to `m_Specific` may bind a temporary null pointer; without the rules `FoldingBuilder.PlainEqSound` applies.
- Names of variables and locations: identity is by number, so clashes of printed names are not modelled, nor are the maps from inlined locations and variables back to the originals.
- The nondeterministic branch instruction, block splitting and phi nodes of error lifting: a failing call is an edge beside the call edge that assigns all parameters.
- Strongly connected components of mutually recursive procedures: error lifting itself leaves them open.
- The bounded model checker's main loop, its solver, caches and settings.
- Array literals and the True and False literals as members of the expression store; addresses are numbers and freed addresses may come back.
- The particular hash combination: the hash is an arbitrary function of label and operand references.
- Memory accesses are given per object; which instructions define or use an object is decided by code that is not part of this model.
- Float reads and writes of memory, constant data arrays, struct offsets, and values whose width is no multiple of eight bits when read back.
- How the s-expression reader fails: a run that loops for ever or reads past its input is the outcome `Stuck`.
- Data-flow edges of the program dependence graph, call graph construction, type getters, printers, drivers and pass registration: they would only add easy members.
