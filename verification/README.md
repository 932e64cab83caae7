# Verified model of the decompiler back end

This project models eight pieces of the rev.ng decompiler in Dafny and proves what each of them is for.

- **Structured AST and C.** `Ghast` gives the GHAST a semantics over traces: a state is the history of the blocks that
  ran, and a world answers every branch and switch as a function of that history. `CLang` gives the printed C its own
  semantics, in which `break` leaves the nearest switch or loop (section 6.8.6.3 of ISO/IEC 9899:2011). `Emission`
  specifies the break fixer and the printer, `Preservation` proves that printing keeps every run. `CodeGenerator` is the
  printer as the object that it is, with its output, its stack of state variables and its counter; `CTokens` is the
  grammar its output is read back with; `PrintedFunction` puts the three together, and `DeclaredFunction` adds the declarations.
- **Rewriting the AST.** `WhileMatching`, `FallThrough`, `ShortCircuit` and `Canonicalize` specify the passes on trees and
  prove that they keep the meaning; `FallThroughResults` says which branches the two passes over fallthrough types move.
  `AstNode` is the AST as linked nodes; the `InPlace` modules perform the passes on
  those nodes, with the stack of loops and switches, the maps from nodes to scope types and weights and the splicing of
  child vectors, and are proved against the functions on trees.
- **Placing declarations.** `ScopeTree` and `Alap` build the scope graph, prove that dominance is reachability on it, and
  run the post-order loop. `Scoping` and `Declarations` prove lexical scoping of the printed C (section 6.2.1 of
  ISO/IEC 9899:2011).
- **ModelGEP.** `GepArithmetic` parses pointer arithmetic and keeps its value, `GepReading` says what is read; `GepSearch`
  decomposes it along nested types, `GepFinding` says what is found; `GepEmission` emits it again.
- **Comparisons.** `TwosComplement` is the rewrite of one comparison at any width, `ComparisonPass` the loop that
  revisits its own output.
- **Parentheses.** `Precedence` prints expressions and reads them back.
- **Stack segregation.** `StoredBytes` is the byte-ownership dataflow, `StackRedirector` the interval index,
  `ReturnPacking` the packing of return registers.
- **Layout graph.** `LayoutGraph` keeps mirrored successor and predecessor sets while nodes are merged, removed and
  relinked.

Blocks, instructions with effects, oracles for conditions, the variables that a block uses, a post order of the scope
graph and the results of model queries are parameters. To verify: `dafny verify dfyconfig.toml`.

## Model

| member | source | states |
|---|---|---|
| PrintedFunction.PrintFunction | lib/Backend/DecompileFunction.cpp:1509-1844 | the printed text reads back, by the grammar of C, as a program that has the same trace and outcome as the tree in every world, at every fuel and from every history, and leaves no state variable set |
| DeclaredFunction.PrintWithDeclarations | lib/Backend/DecompileFunction.cpp:1509-1844 | printing with the declarations that the placement computes: the text reads back as a program that runs like the tree, declares every variable once, and has every use in the scope of that declaration |
| DeclaredFunction.FixKeepsDefaults | lib/RestructureCFG/BeautifyGHAST.cpp:588-667 | the break fixer leaves the labels of the cases as they are, so that placement and printing meet on the fixed tree |
| Preservation.PrintedFunctionRunsLikeTree | lib/Backend/DecompileFunction.cpp:1558-1823 | C code in which `break` leaves the nearest switch or loop behaves like the tree in which a loop break leaves the loop through any nest of switches |
| Preservation.EmitMirrors | lib/Backend/DecompileFunction.cpp:1698-1823 | the invariant behind it: outside of an unwinding break every state variable is false, during one exactly the one on top is true |
| CodeGenerator.FixedCovers | lib/Backend/DecompileFunction.cpp:1562-1571 | after the break fixer the assertions of the printer hold: it never reads an empty stack of state variables, for every placed tree whose while loops have bodies |
| CodeGenerator.CCodeGenerator.EmitGHASTNode | lib/Backend/DecompileFunction.cpp:1509-1844 | appends exactly the tokens of the specified code, restores the stack of state variables, advances the name counter |
| CodeGenerator.CCodeGenerator.BuildCondition | lib/Backend/DecompileFunction.cpp:1332-1495 | the blocks of all operands are printed eagerly, left to right, or not at all under a weaved condition |
| CodeGenerator.CCodeGenerator.DeclareVariables | lib/Backend/DecompileFunction.cpp:1513-1550 | the declarations of a node are printed in front of it, in order |
| CodeGenerator.CCodeGenerator.EmitIf | lib/Backend/DecompileFunction.cpp:1606-1644 | condition code, test, braces around both branches, no `else` when there is none |
| CodeGenerator.CCodeGenerator.EmitLoop | lib/Backend/DecompileFunction.cpp:1646-1687 | a while condition is computed before the loop; the three loop forms; every loop but a do-while has a body, as the printer asserts |
| CodeGenerator.CCodeGenerator.EmitDoWhile | lib/Backend/DecompileFunction.cpp:1668-1685 | a do-while condition is computed inside the braces and tested outside of them |
| CodeGenerator.CCodeGenerator.EmitSequence | lib/Backend/DecompileFunction.cpp:1689-1696 | the children in order, with the state left by each passed to the next |
| CodeGenerator.CCodeGenerator.EmitLabelledCases | lib/Backend/DecompileFunction.cpp:1753-1784 | labelled cases in order, each in braces with a `break` behind; the default is skipped |
| CodeGenerator.CCodeGenerator.EmitDefaultCase | lib/Backend/DecompileFunction.cpp:1786-1794 | the default case comes last, wherever it stands in the list |
| CodeGenerator.CCodeGenerator.EmitSwitchHead | lib/Backend/DecompileFunction.cpp:1705-1743 | a fresh variable is declared false and pushed exactly when the switch needs one |
| CodeGenerator.CCodeGenerator.EmitDispatcher | lib/Backend/DecompileFunction.cpp:1798-1814 | the dispatcher tests the variable on top of the stack, without braces |
| CodeGenerator.CCodeGenerator.EmitSwitch | lib/Backend/DecompileFunction.cpp:1698-1823 | the whole switch; the variable is popped again |
| CodeGenerator.CCodeGenerator.EmitLeaf | lib/Backend/DecompileFunction.cpp:1558-1604 | breaks set the variable first when they leave a switch; implicit continues and returns print nothing |
| CTokens.StmtsRead | lib/Backend/DecompileFunction.cpp:1606-1823 | statements of the printed shapes read back unchanged, although the dispatcher has no braces and `else` binds to the nearest `if` |
| InPlaceBreaks.SwitchBreaksFixer.Run | lib/RestructureCFG/BeautifyGHAST.cpp:588-667 | on the linked nodes: the flags of breaks and switches become exactly those of the specification |
| InPlaceBreaks.SwitchBreaksFixer.Exec | lib/RestructureCFG/BeautifyGHAST.cpp:605-663 | one node: the subtree is fixed, all active switches are flagged exactly when a break of their loop is inside, the stack is restored, its assertions hold |
| InPlaceBreaks.SwitchBreaksFixer.ExecBreak | lib/RestructureCFG/BeautifyGHAST.cpp:635-652 | a break inside switches flags itself, the outermost switch and all dispatchers |
| InPlaceBreaks.SwitchBreaksFixer.ExecCases | lib/RestructureCFG/BeautifyGHAST.cpp:625-633 | a switch is active for its cases only, and only inside a loop |
| WhileMatching.MatchWhileRefines | lib/RestructureCFG/BeautifyGHAST.cpp:499-586 | the matched program has the same finished runs as the original, and a diverging run shows the same events, when loop bodies that start with a test never complete normally or the test has nothing to recompute |
| WhileMatching.MatchWhileAttachesExactly | lib/RestructureCFG/BeautifyGHAST.cpp:475-497 | every continue of a matched loop carries the condition of that loop, no other continue carries one |
| WhileMatching.AttachRuns | lib/Backend/DecompileFunction.cpp:1579-1595 | an attached computation only adds the condition code to the runs that reach a continue |
| WhileMatching.LoopTurns | lib/Backend/DecompileFunction.cpp:1646-1687 | testing before the loop and again at each continue is testing inside the body, for one loop and every number of iterations |
| WhileMatching.TestIsNotRecomputed | lib/RestructureCFG/BeautifyGHAST.cpp:552-582 | outside the condition, for every body: where its rest completes normally at a history at which the test fails as it is, the matched loop ends there while the original computes its condition once more, so that the runs differ unless the condition is silent |
| WhileMatching.FallingBodyGoesWrong | lib/RestructureCFG/BeautifyGHAST.cpp:552-582 | such a loop, with both of its runs |
| InPlaceWhile.AddComputationToContinue | lib/RestructureCFG/BeautifyGHAST.cpp:475-497 | on the linked nodes; no continue had a computation before |
| InPlaceWhile.MatchWhileInPlace | lib/RestructureCFG/BeautifyGHAST.cpp:499-586 | on the linked nodes: the tree becomes that of the specification, whether or not bodies fall through |
| WhileMatching.MatchedLoopHasBody | lib/RestructureCFG/BeautifyGHAST.cpp:571-583 | a matched loop keeps a body, unless the whole body was a test without another branch, on which the pass aborts |
| WhileMatching.MatchedIff | lib/RestructureCFG/BeautifyGHAST.cpp:526-569 | a loop becomes a `while` loop exactly when it is endless and its first statement is an `if` with a break for a branch |
| WhileMatching.MatchWhileIsComplete | lib/RestructureCFG/BeautifyGHAST.cpp:499-586 | after the pass no such loop is left, at any depth |
| InPlaceWhile.AddComputationToLoop | lib/RestructureCFG/BeautifyGHAST.cpp:582-583 | the continues of the body that is left; it is never missing there |
| InPlaceWhile.FindTest | lib/RestructureCFG/BeautifyGHAST.cpp:531-569 | a test is found exactly when the body starts with an `if` that breaks on one side; the branch that stays and the condition for it |
| InPlaceWhile.RemoveTest | lib/RestructureCFG/BeautifyGHAST.cpp:571-580 | the branch that stays takes the place of the test |
| FallThrough.AnalysisSound | lib/RestructureCFG/FallThroughScopeAnalysis.cpp:60-246 | a node classified other than FallThrough neither completes normally nor leaves an enclosing switch, when switch breaks occur only in tail position |
| FallThroughResults.ScopeClassifies | lib/RestructureCFG/FallThroughScopeAnalysis.cpp:60-246 | the type of a node in terms of the statements that its ways end with: Return, CallNoReturn, Continue or LoopBreak exactly when all of them are of that kind, FallThrough exactly when control flows past one of them |
| FallThrough.SwitchFallsIff | lib/RestructureCFG/FallThroughScopeAnalysis.cpp:125-166 | without the tail condition: a switch classified other than FallThrough completes normally on exactly those runs whose selected case reaches one of its switch breaks |
| FallThrough.MiddleSwitchBreakFools | lib/RestructureCFG/FallThroughScopeAnalysis.cpp:125-166 | such a switch: classified Return, it completes normally |
| InPlaceAnalysis.FallThroughAnalysis.Record | lib/RestructureCFG/FallThroughScopeAnalysis.cpp:248-256 | the map holds the type of every node of the subtree, and of no others |
| InPlaceAnalysis.FallThroughAnalysis.Impl | lib/RestructureCFG/FallThroughScopeAnalysis.cpp:60-246 | the type of a node, and the recorded types of all nodes below |
| InPlaceAnalysis.FallThroughAnalysis.CombineAll | lib/RestructureCFG/FallThroughScopeAnalysis.cpp:130-147 | the loop that combines the cases from the first one on |
| InPlaceAnalysis.ComputeFallThroughScope | lib/RestructureCFG/FallThroughScopeAnalysis.cpp:248-256 | the map of the whole tree; every entry is sound |
| InPlaceAnalysis.KnownIsSound | lib/RestructureCFG/FallThroughScopeAnalysis.cpp:248-256 | the entries of all nodes are sound when the analysis is done |
| InPlaceAnalysis.NodeWeightComputation.Compute | lib/RestructureCFG/BeautifyGHAST.cpp:674-777 | the weights of all nodes below are recorded |
| FallThroughResults.WeightIsSum | lib/RestructureCFG/BeautifyGHAST.cpp:674-777 | the weight of a tree is the sum over all its statements |
| FallThrough.PromotePreserves | lib/RestructureCFG/BeautifyGHAST.cpp:779-932 | promotion keeps the outcome and the trace of every run |
| FallThroughResults.PromoteIsComplete | lib/RestructureCFG/BeautifyGHAST.cpp:779-932 | after the pass no `if` has two branches one of which does not fall through |
| FallThroughResults.LighterStays | lib/RestructureCFG/BeautifyGHAST.cpp:850-860 | where neither branch falls through, the lighter one stays in the `if`, and the `then` moves on a tie |
| FallThroughResults.NonFallingStays | lib/RestructureCFG/BeautifyGHAST.cpp:861-865 | where one branch falls through, that one moves behind the `if` |
| FallThroughResults.PromoteKeepsFalling | lib/RestructureCFG/BeautifyGHAST.cpp:812-814 | promotion does not change which nodes fall through, as a comment in the code claims |
| InPlacePromotion.FallThroughPromotion.PromoteNode | lib/RestructureCFG/BeautifyGHAST.cpp:779-932 | on the linked nodes: the promoted tree; the maps keep all entries and know the new node as the old one; every node of the new subtree has an entry, sound unless it is stale, and the new root's is not stale |
| InPlacePromotion.FallThroughPromotion.PromoteIf | lib/RestructureCFG/BeautifyGHAST.cpp:836-904 | which branch is moved depends on the types and weights from before the pass; no decision reads a stale entry |
| InPlacePromotion.FallThroughPromotion.MoveBehind | lib/RestructureCFG/BeautifyGHAST.cpp:867-899 | a new sequence of the `if` and the moved branch, registered in both maps with the entries of the `if` |
| InPlacePromotion.PromoteRoot | lib/RestructureCFG/BeautifyGHAST.cpp:934-956 | after the whole pass every entry of the map is sound or stale |
| InPlacePromotion.EntryIsSoundIff | lib/RestructureCFG/BeautifyGHAST.cpp:867-899 | the exact condition, for every node of the tree: its entry is sound if and only if it is not an `if` that lost one of two branches, neither of which falls through, or no run ever asks for the lost branch |
| InPlacePromotion.StaleIsSoundIff | lib/RestructureCFG/BeautifyGHAST.cpp:867-899 | where the test of such an `if` is atomic its entry, which the code leaves alone, is wrong |
| InPlacePromotion.PromoteNoFallthroughIf | lib/RestructureCFG/BeautifyGHAST.cpp:934-963 | analysis, weights, promotion and collapsing: the result is equivalent in every world, and the map entry of the new root is still sound |
| FallThrough.PushDownPreserves | lib/RestructureCFG/PromoteCallNoReturn.cpp:44-177 | pushing down keeps the outcome and the trace of every run |
| FallThroughResults.PushDownTradesIff | lib/RestructureCFG/PromoteCallNoReturn.cpp:29-83 | the children of a sequence change exactly when all ways through the last one end in calls that do not return, and an earlier child is an `if` without `else` all of whose ways return, or all continue, or all break |
| FallThroughResults.PushDownTrades | lib/RestructureCFG/PromoteCallNoReturn.cpp:75-111 | the `then` of the last such child comes last, and what followed it becomes its `else` |
| FallThroughResults.PushDownReaches | lib/RestructureCFG/PromoteCallNoReturn.cpp:44-177 | every sequence of the tree is treated, at any depth |
| FallThrough.ScopesTradePlaces | lib/RestructureCFG/PromoteCallNoReturn.cpp:85-111 | an `if` body and the rest of the sequence can be exchanged when neither falls through |
| InPlacePushDown.PushDownNode | lib/RestructureCFG/PromoteCallNoReturn.cpp:44-177 | on the linked nodes: the tree becomes that of the specification, branches of `if` nodes keep their identity, and every entry of the map below the node is still sound |
| InPlacePushDown.FindCandidate | lib/RestructureCFG/PromoteCallNoReturn.cpp:75-83 | the search from the back finds the last candidate |
| InPlacePushDown.TradePlaces | lib/RestructureCFG/PromoteCallNoReturn.cpp:85-111 | the nodes behind the `if` move into its `else`, its `then` to the end of the sequence |
| InPlacePushDown.TradeSoundly | lib/RestructureCFG/PromoteCallNoReturn.cpp:85-111 | trading places leaves all old entries sound: the `if` was classified as FallThrough, the new sequence has no entry |
| InPlacePushDown.PushDownRoot | lib/RestructureCFG/PromoteCallNoReturn.cpp:179-191 | after the whole pass every entry of the map is sound |
| InPlacePushDown.PromoteCallNoReturn | lib/RestructureCFG/PromoteCallNoReturn.cpp:179-208 | analysis, transformation and normalization: normal form, equivalent in every world |
| Canonicalize.FlipPreserves | lib/RestructureCFG/ASTNodeUtils.cpp:84-121 | flipping keeps every run |
| Canonicalize.CollapsePreserves | lib/RestructureCFG/ASTNodeUtils.cpp:127-242 | flattening nested sequences keeps every run |
| Canonicalize.ShortenPreserves | lib/RestructureCFG/ASTNodeUtils.cpp:246-338 | dropping short sequences keeps every run, also where cases of a switch disappear, when no two cases share a label |
| Canonicalize.CanonicalIsNormalAndEquivalent | lib/RestructureCFG/ASTNodeUtils.cpp:344-364 | normal form: no sequence directly in a sequence, none shorter than two, every `if` has a `then` |
| InPlaceCanonicalize.FlipEmptyThen | lib/RestructureCFG/ASTNodeUtils.cpp:84-121 | on the linked nodes |
| InPlaceCanonicalize.SpliceStep | lib/RestructureCFG/ASTNodeUtils.cpp:169-190 | the running offset points at the next nested sequence, and replacing it keeps the list flat up to there |
| InPlaceCanonicalize.SpliceSequences | lib/RestructureCFG/ASTNodeUtils.cpp:134-190 | splicing in place with a running offset is flattening |
| InPlaceCanonicalize.CollapseSequences | lib/RestructureCFG/ASTNodeUtils.cpp:127-242 | on the linked nodes |
| InPlaceCanonicalize.SimplifyCaseList | lib/RestructureCFG/ASTNodeUtils.cpp:290-317 | cases are erased during the iteration only when there is no default, otherwise they become a break |
| InPlaceCanonicalize.SimplifyAtomicSequence | lib/RestructureCFG/ASTNodeUtils.cpp:246-338 | on the linked nodes; a subtree may disappear |
| InPlaceCanonicalize.CanonicalizeInPlace | lib/RestructureCFG/ASTNodeUtils.cpp:344-364 | the three passes in place: normal form and equivalence in every world |
| ShortCircuit.PureConditionRuns | lib/RestructureCFG/BeautifyGHAST.cpp:82-130 | computing a condition without side effects leaves no trace |
| ShortCircuit.SideEffectsIff | lib/RestructureCFG/BeautifyGHAST.cpp:82-130 | a condition has side effects exactly when one of the blocks that are printed in front of it has |
| ShortCircuit.SharedElse | lib/RestructureCFG/BeautifyGHAST.cpp:190-222 | if A (if B X else Y) else Y is if A and B X else Y, with B computed eagerly |
| ShortCircuit.SharedThen | lib/RestructureCFG/BeautifyGHAST.cpp:154-188 | if A (if B Y else X) else Y is if A and not B X else Y, with B computed eagerly |
| ShortCircuit.NestedInThenPreserves | lib/RestructureCFG/BeautifyGHAST.cpp:149-223 | one application of a then-nested rule keeps every run |
| ShortCircuit.NestedInThenUnchangedIff | lib/RestructureCFG/BeautifyGHAST.cpp:149-223 | the tree changes exactly when an inner branch equals the `else` and the inner condition is pure |
| ShortCircuit.NestedInElseSwapsBranches | lib/RestructureCFG/BeautifyGHAST.cpp:225-298 | an else-nested rule that fires installs the branches exchanged |
| ShortCircuit.NestedInElsePreservesIff | lib/RestructureCFG/BeautifyGHAST.cpp:225-298 | the exact condition, for both rules and all trees: the meaning is kept if and only if no guard holds, or the shared block and the other one run alike wherever the outer condition has been computed |
| ShortCircuit.NestedInElseUnchangedIff | lib/RestructureCFG/BeautifyGHAST.cpp:225-298 | the tree stays as it is exactly when no guard holds |
| ShortCircuit.NestedInElseGoesWrong | lib/RestructureCFG/BeautifyGHAST.cpp:225-260 | a run on which the first rule changes the trace |
| ShortCircuit.MirroredGoesWrong | lib/RestructureCFG/BeautifyGHAST.cpp:262-296 | a run on which the second rule changes the trace |
| ShortCircuit.MergeNestedPreserves | lib/RestructureCFG/BeautifyGHAST.cpp:307-359 | merging whole chains of nested ifs, everywhere in the tree, keeps every run |
| ShortCircuit.MergeNestedIsComplete | lib/RestructureCFG/BeautifyGHAST.cpp:349-357 | one pass leaves nothing to merge, so the repeated visits change nothing |
| Alap.ScopeGraph.BuildNode | lib/Backend/ALAPVariableDeclaration.cpp:192-255 | the built graph has exactly the edges of the scope tree |
| ScopeTree.ParentIsBefore | lib/Backend/ALAPVariableDeclaration.cpp:192-255 | every node but the root has one predecessor, with a smaller label: the graph is a tree |
| ScopeTree.DominanceIsReachability | lib/Backend/ALAPVariableDeclaration.cpp:367-377 | on this graph dominance and reachability are the same relation, which the code postulates |
| ScopeTree.AboveInKid | lib/Backend/ALAPVariableDeclaration.cpp:192-255 | a node is reachable only from the root, its own subtree, and the siblings in front of it in a sequence |
| Alap.BlockToNode.Compute | lib/Backend/ALAPVariableDeclaration.cpp:66-172 | the nodes that use a block are those whose own code or condition contains it |
| Alap.FirstCoverIsDeepest | lib/Backend/ALAPVariableDeclaration.cpp:380-425 | in any post order the first node that dominates all uses exists and is the deepest one |
| Alap.PostOrderExists | lib/Backend/ALAPVariableDeclaration.cpp:380-386 | the scope graph of every tree has a post order |
| Alap.VisitNode | lib/Backend/ALAPVariableDeclaration.cpp:386-417 | the inner loop with its tombstones |
| Alap.ComputeVarDeclMap | lib/Backend/ALAPVariableDeclaration.cpp:357-428 | every variable is assigned to exactly one node, the deepest from which all its uses are reachable; none is left pending |
| Scoping.EmitScoped | lib/Backend/DecompileFunction.cpp:1509-1550 | with such a placement every use in the printed code is in lexical scope |
| Declarations.EmitCounts | lib/Backend/DecompileFunction.cpp:1512-1550 | a variable is declared once if it is placed in the printed tree, and not otherwise |
| Declarations.UsesAreInScope | lib/Backend/DecompileFunction.cpp:1509-1550 | every use lies in the scope of the single declaration |
| Declarations.DeclareVariables | lib/Backend/ALAPVariableDeclaration.cpp:329-428 | the whole computation, from the blocks that use a variable to the scoped code |
| GepArithmetic.ParseSound | lib/Canonicalize/MakeModelGEPPass.cpp:504-709 | what is parsed has the value of the expression modulo 2^64, for every value of the indices |
| GepReading.ParseReads | lib/Canonicalize/MakeModelGEPPass.cpp:504-709 | what is read, in terms of the operands that additions and casts lead to: the addends are their strides, two to the power of the amount for a shift and the constant factor for a product; the constant is the sum of the constants; the base is the one known pointer; apart from failing assertions the pass gives up exactly on a refused operand or on two pointers; an assertion fails whenever a stride has a constant for its index, and otherwise only if the constants add up to the sign bit or more |
| GepArithmetic.PlusIsValid | lib/Canonicalize/MakeModelGEPPass.cpp:356-371 | addition keeps coefficients non-negative and descending |
| GepArithmetic.PlusAdds | lib/Canonicalize/MakeModelGEPPass.cpp:356-371 | addition of summations adds their values |
| GepSearch.SplitConserves | lib/Canonicalize/MakeModelGEPPass.cpp:1173-1191 | splitting a summation between an element index and the rest conserves it |
| GepSearch.IndexInBounds | lib/Canonicalize/MakeModelGEPPass.cpp:1081-1086 | a constant that passes the size check indexes an element of the array |
| GepSearch.UnwrapIndices | lib/Canonicalize/MakeModelGEPPass.cpp:1092-1172 | large coefficients in units of one element, or nothing when one is no multiple; the abort is unreachable |
| GepSearch.BetterIsTransitive | lib/Canonicalize/MakeModelGEPPass.cpp:734-805 | scores are a strict order |
| GepSearch.NotBetterIsTransitive | lib/Canonicalize/MakeModelGEPPass.cpp:734-805 | and a total one |
| GepFinding.ScoreOrder | lib/Canonicalize/MakeModelGEPPass.cpp:734-805 | the kind of match decides first, then how little is left over, then how short the path is |
| GepFinding.MismatchMeans | lib/Canonicalize/MakeModelGEPPass.cpp:995-1044 | when a result is a perfect match, a match of size, in range, or out of bounds |
| GepSearch.BestFits | lib/Canonicalize/MakeModelGEPPass.cpp:1446-1524 | for every type, summation and access: address conserved, path well typed up to typedefs, constant indices in bounds, coefficients descending, score not worse than no path |
| GepFinding.BestUsesUp | lib/Canonicalize/MakeModelGEPPass.cpp:1052-1524 | whenever some way through elements, fields, members and typedefs uses up the whole summation and ends at the accessed type, the search ends there as well, with nothing left over |
| GepFinding.FieldIsFound | lib/Canonicalize/MakeModelGEPPass.cpp:1236-1349 | an access to a field at its offset is a perfect match |
| GepFinding.MemberIsFound | lib/Canonicalize/MakeModelGEPPass.cpp:1351-1444 | an access to a union as one of its members is a perfect match |
| GepFinding.ElementIsFound | lib/Canonicalize/MakeModelGEPPass.cpp:1052-1234 | an access that steps by whole elements is a perfect match, for any number of indices |
| GepFinding.NotTheShortest | lib/Canonicalize/MakeModelGEPPass.cpp:962-987 | the result need not be the shortest perfect match: in a union of a struct that holds an array, and of that array, every summation of three indices that step by whole elements is led through the struct, because the lower bound counts a level for each index |
| GepSearch.ArrayExplains | lib/Canonicalize/MakeModelGEPPass.cpp:1052-1234 | the same for arrays, whose own result may still be worse than no path |
| GepSearch.FieldsFit | lib/Canonicalize/MakeModelGEPPass.cpp:1284-1346 | the same along the backward loop over fields |
| GepSearch.MembersFit | lib/Canonicalize/MakeModelGEPPass.cpp:1397-1441 | the same along the loop over union members |
| GepSearch.ComputeBestInArray | lib/Canonicalize/MakeModelGEPPass.cpp:1052-1234 | computes the specified result |
| GepSearch.ScanFields | lib/Canonicalize/MakeModelGEPPass.cpp:1284-1346 | the loop over fields; its assertion on the bound holds |
| GepSearch.ComputeBestInUnion | lib/Canonicalize/MakeModelGEPPass.cpp:1351-1444 | computes the specified result |
| GepSearch.ComputeBest | lib/Canonicalize/MakeModelGEPPass.cpp:1446-1524 | computes the specified result; the recursion terminates |
| GepEmission.BuildIndex | lib/Canonicalize/MakeModelGEPPass.cpp:2172-2216 | an emitted argument has the value of its index |
| GepEmission.MatchesOffset | lib/Canonicalize/MakeModelGEPPass.cpp:2172-2218 | following the arguments through the type skips the bytes that the path skips |
| GepEmission.MismatchAdds | lib/Canonicalize/MakeModelGEPPass.cpp:2235-2246 | the left-over arithmetic adds the mismatch |
| GepEmission.ReplaceUse | lib/Canonicalize/MakeModelGEPPass.cpp:2077-2260 | parse, search and emission compose to the identity on addresses |
| GepEmission.CallTakesItAll | lib/Canonicalize/MakeModelGEPPass.cpp:1965-2260 | where the summation can be used up, a use becomes one call on the base address with no arithmetic left, unless it accesses the pointee at the base itself |
| GepEmission.StridedAccess | lib/Canonicalize/MakeModelGEPPass.cpp:617-641 | `p + (i << k)`, with `p` a pointer to a type of that size and accessed as that type, becomes one call on `p` with no arithmetic left |
| GepEmission.PointeeStays | lib/Canonicalize/MakeModelGEPPass.cpp:2105-2117 | an access to the pointee at the base address is left alone |
| TwosComplement.RewriteCorrect | lib/Canonicalize/TwosComplementArithmeticNormalizationPass.cpp:216-280 | every width, predicate, operation, constants and value: the generated comparisons equal the original one, if the moved constant is not zero |
| TwosComplement.RewriteCorrectIff | lib/Canonicalize/TwosComplementArithmeticNormalizationPass.cpp:216-280 | the exact condition under which they do, including a moved constant of zero |
| TwosComplement.WrapsAround | lib/Canonicalize/TwosComplementArithmeticNormalizationPass.cpp:224-254 | the additions and subtractions of constants are those modulo the width |
| TwosComplement.NegativeConstant | lib/Canonicalize/TwosComplementArithmeticNormalizationPass.cpp:142-151 | adding a negative constant is subtracting its opposite, and conversely |
| ComparisonPass.VisitReplaces | lib/Canonicalize/TwosComplementArithmeticNormalizationPass.cpp:216-290 | what is inserted for one instruction computes the same value and respects SSA form |
| ComparisonPass.MovableIffRight | lib/Canonicalize/TwosComplementArithmeticNormalizationPass.cpp:216-280 | what replaces a comparison over one addition or subtraction is right about all inputs exactly where the constant may move |
| ComparisonPass.NonZeroIsMovable | lib/Canonicalize/TwosComplementArithmeticNormalizationPass.cpp:216-280 | in a nest without zeros every constant may be moved, for the generated comparisons as well |
| ComparisonPass.MakesProgress | lib/Canonicalize/TwosComplementArithmeticNormalizationPass.cpp:109-111 | each replacement lowers the remaining cost although its comparisons are visited again |
| ComparisonPass.EraseRuns | lib/Canonicalize/TwosComplementArithmeticNormalizationPass.cpp:300-301 | erasing the dead instructions changes nothing that is observed |
| ComparisonPass.NormalizeComparisons | lib/Canonicalize/TwosComplementArithmeticNormalizationPass.cpp:109-304 | terminates on nests of any depth; same observations for all operands, where each constant of a nest may be moved in the comparisons that it meets; no comparison over a constant addition or subtraction is left |
| Precedence.PrintedValueReadsBack | lib/Canonicalize/OperatorPrecedenceResolutionPass.cpp:338-529 | every expression, printed with the chosen parentheses, reads back as the same tree up to parentheses, by a grammar whose levels are those of sections 6.5.5 to 6.5.15 of ISO/IEC 9899:2011 |
| Precedence.OperatorsRead | lib/Canonicalize/OperatorPrecedenceResolutionPass.cpp:450-529 | the statement for one precedence level, with anything that may follow |
| Precedence.LevelOfCOperator | lib/Canonicalize/OperatorPrecedenceResolutionPass.cpp:134-195 | the precedence table of the pass agrees with the levels of that grammar |
| Precedence.ParenthesesIff | lib/Canonicalize/OperatorPrecedenceResolutionPass.cpp:338-529 | which operands get parentheses, for every kind of operator and operand |
| Precedence.SameLevelSameAssociativity | lib/Canonicalize/OperatorPrecedenceResolutionPass.cpp:462-464 | operands on one level agree on associativity, as the pass asserts |
| Precedence.TraverseTransparentOpcodes | lib/Canonicalize/OperatorPrecedenceResolutionPass.cpp:303-318 | the loop ends at the operand below all transparent opcodes |
| LayoutGraph.Redirect | lib/DataLayoutAnalysis/DLATypeSystem.cpp:236-268 | links to the merged node become links to the other one |
| LayoutGraph.LayoutTypeSystem.FixPredSucc | lib/DataLayoutAnalysis/DLATypeSystem.cpp:228-291 | the sets of all nodes after the redirection |
| LayoutGraph.FixedIsConsistent | lib/DataLayoutAnalysis/DLATypeSystem.cpp:503-549 | mirrored sets, no dangling links, no self edges after a merge |
| LayoutGraph.FixedIsQuotient | lib/DataLayoutAnalysis/DLATypeSystem.cpp:228-291 | one merge yields the quotient graph |
| LayoutGraph.QuotientsCompose | lib/DataLayoutAnalysis/DLATypeSystem.cpp:305-332 | merging one after the other is merging all at once |
| LayoutGraph.LayoutTypeSystem.MergeNodes | lib/DataLayoutAnalysis/DLATypeSystem.cpp:295-333 | a list of distinct nodes: exactly the quotient graph, still consistent |
| LayoutGraph.LayoutTypeSystem.RemoveNode | lib/DataLayoutAnalysis/DLATypeSystem.cpp:335-361 | the node disappears with its edges, all others stay |
| LayoutGraph.LayoutTypeSystem.AddLink | include/revng-c/DataLayoutAnalysis/DLATypeSystem.h:308-319 | no self edges |
| LayoutGraph.LayoutTypeSystem.AddInstanceLink | include/revng-c/DataLayoutAnalysis/DLATypeSystem.h:330-348 | offsets above 64K are not added |
| LayoutGraph.LayoutTypeSystem.EraseEdge | lib/DataLayoutAnalysis/DLATypeSystem.cpp:474-484 | one edge in both sets |
| LayoutGraph.LayoutTypeSystem.DropOutgoingEdges | lib/DataLayoutAnalysis/DLATypeSystem.cpp:486-491 | all outgoing edges of one node |
| LayoutGraph.LayoutTypeSystem.MoveEdgeTarget | lib/DataLayoutAnalysis/DLATypeSystem.cpp:398-434 | the moved edge; consistent exactly when it is not moved onto its own source with an unchanged offset |
| LayoutGraph.LayoutTypeSystem.MoveEdgeSource | lib/DataLayoutAnalysis/DLATypeSystem.cpp:436-472 | likewise for sources |
| StoredBytes.TransferBlock | lib/PromoteStackPointer/SegregateStackAccessesPass.cpp:201-243 | the transfer function of a block |
| StoredBytes.Survival | lib/PromoteStackPointer/SegregateStackAccessesPass.cpp:201-243 | an entry survives exactly when its store is the last known-offset access to that byte, with no isolated call behind it |
| StoredBytes.LeastSolutionIsPaths | lib/PromoteStackPointer/SegregateStackAccessesPass.cpp:195-244 | on any graph the least solution is exactly the union over all entry paths |
| StoredBytes.CountBytes | lib/PromoteStackPointer/SegregateStackAccessesPass.cpp:1275-1289 | counts and offsets of the stores in a set of bytes |
| StoredBytes.CountIsSizeIff | lib/PromoteStackPointer/SegregateStackAccessesPass.cpp:1285-1312 | the count of a store is its size exactly when each of its bytes reaches the call site on some path |
| StackRedirector.StackAccessRedirector.RecordSpan | lib/PromoteStackPointer/SegregateStackAccessesPass.cpp:129-136 | the map with one more span, still without overlaps |
| StackRedirector.StackAccessRedirector.ComputeNewBase | lib/PromoteStackPointer/SegregateStackAccessesPass.cpp:139-167 | finds a base exactly when some span contains the whole access, and agrees with a scan of all spans |
| StackRedirector.NoOverlap | lib/PromoteStackPointer/SegregateStackAccessesPass.cpp:170-183 | checking neighbours is enough to exclude all overlaps |
| StackRedirector.ContainerIsUnique | lib/PromoteStackPointer/SegregateStackAccessesPass.cpp:139-167 | no two spans contain the same access |
| StackRedirector.ContainsAccess | lib/PromoteStackPointer/SegregateStackAccessesPass.cpp:152-166 | the check is containment of byte ranges |
| ReturnPacking.GetBitOffsetAt | lib/PromoteStackPointer/SegregateStackAccessesPass.cpp:56-62 | the sum of the widths in front |
| ReturnPacking.Pack | lib/PromoteStackPointer/SegregateStackAccessesPass.cpp:766-774 | the loop of zero extension, shift and or |
| ReturnPacking.UnpackPacked | lib/PromoteStackPointer/SegregateStackAccessesPass.cpp:1227-1249 | shift and truncation give every field back |
| ReturnPacking.RoundTrip | lib/PromoteStackPointer/SegregateStackAccessesPass.cpp:756-777 | callee and caller compose to the identity on every field |

## Left out

- PrintedFunction.PrintFunction: text is modelled as tokens; a basic block stands for its statements, and markup, types
  and names of variables are not printed. An unreachable that does not follow a call to a noreturn function prints
  nothing and is treated as completing normally.
- PrintedFunction.PrintFunction: the printer walks over trees, not over the linked nodes, because it does not change them.
- WhileMatching.MatchWhileRefines: the condition on loop bodies is sufficient; outside of it `TestIsNotRecomputed` says which
  runs go wrong, but a loop none of whose runs gets there may still be matched rightly.
- WhileMatching.MatchWhileRefines: a condition is copied into the loop and its continues, so that a later change of the
  shared `IfNode` would not be seen.
- FallThrough.AnalysisSound: is about trees whose switch breaks stand in tail position and whose jumps are explicit; the
  code relies on both, and `SwitchFallsIff` says what happens otherwise.
- InPlacePromotion.PromoteNoFallthroughIf: after the collapsing, which does not read the map, only the entry of the root is
  stated to be sound.
- Canonicalize.ShortenPreserves: assumes that no two cases of a switch share a label, as the type of the case list promises.
- InPlaceCanonicalize.SimplifyCaseList: a `break` that has just been put in place is not visited once more, which would not
  change it.
- ShortCircuit.NestedInThenPreserves: is about one application, with structural equality of branches; the comparison in
  `lib/RestructureCFG/ASTNode.cpp:125-143` overwrites its result for the `then` branches.
- ShortCircuit.MergeNestedPreserves: is modelled on trees; the change in place of one `if` node is not.
- ShortCircuit.NestedInElsePreservesIff: is about one application, with structural equality of branches, as above.
- InPlaceAnalysis.NodeWeightComputation.Compute: weights are unbounded, where the code lets them wrap at the width of `unsigned`.
- Alap.ComputeVarDeclMap: the post order of the graph is a parameter, any one will do; which blocks use a variable is given.
- GepArithmetic.ParseSound: everything happens at 64 bits; a shift by the width or more, which is poison, is read as opaque,
  and constant expressions are treated like instructions.
- GepArithmetic.PlusIsValid: addends with equal coefficients keep their order, where the library may choose any.
- GepSearch.BestFits: the result is not the best path of all, because the lower bound counts one level per index while one
  array level can consume several: `NotTheShortest` names the types and summations. A perfect match is found whenever there
  is one on a way that stays inside of every type, by `BestUsesUp`; where there is none, which of the other scores is found
  is not stated beyond `BestFits`.
- GepEmission.ReplaceUse: which values are known pointers, and which type a use accesses, is given; void and function
  pointees, phi nodes and insertion points are not modelled.
- ComparisonPass.NormalizeComparisons: is about the comparisons of one block; where a zero constant may not be moved the
  pass goes wrong by `MovableIffRight`, but that no And or Or around it ever hides the error is not claimed; the other
  rewrites of the pass only appear as the sign changes of `NegativeConstant`.
- Precedence.PrintedValueReadsBack: pure pointer dereference is excluded, its table entry cannot be reached; as in the table
  there is one level of comparisons where sections 6.5.8 and 6.5.9 of ISO/IEC 9899:2011 have two; adjacent prefix operators
  are separate tokens.
- LayoutGraph.LayoutTypeSystem.RemoveNode: the equivalence class of the removed node is not modelled.
- LayoutGraph.LayoutTypeSystem.MergeNodes: sizes, interference information and equivalence classes of nodes are not modelled,
  nor is the part of `verifyConsistency` about pointers.
- StoredBytes.LeastSolutionIsPaths: the fixed point is computed by a library; the theorem is about its least solution, on
  graphs whose blocks can all be reached.
- StoredBytes.CountIsSizeIff: an instruction accesses the same offset and size whenever it runs, as its marker says.
- StackRedirector.StackAccessRedirector.RecordSpan: spans are shorter than 2^63 bytes.
- Matching of do-while loops, inlining of dispatcher switches, switch matching, and the implicit return and continue passes:
  an implicit jump here means that control falls out of its node.
- LLVM, clang, the monotone framework, model serialization, logging and file output.
