# Verified model of the kernel decompiler's middle end

The repository turns AMD GCN assembly and NVIDIA PTX back into OpenCL C. This project models the passes
that must not change what a kernel computes, and proves that they do not, or exactly when they do:

- **Execution masks to control flow** (`ExecConditions`, `MaskCfg`, `MaskPaths`, `MaskRuns`, `LanePaths`,
  `CfgShape`, `NextNodes`, `CfgBuilder`, `SecondElses`). Masks are sets of conditions, read over every lane. The pass is a step
  machine with a stack of open masks and a growing graph; each lane's instructions are those on one path of that
  graph.
- **The expression optimiser** (`Operators`, `Expressions`, `Cancellation`, `SumTerms`, `OptimiserGuards`,
  `OptimiserResults`, `OptimiserTypes`, `OptimiserSums`, `OptimiserLaws`, `OptimiserValues`, `OptimiserRuns`,
  `Replacement`, `Substitution`, `TameTrees`, `ExpressionManager`, `RingWords`, `GlobalSizeLoss`, `OptimiserLimits`,
  `ExponentTexts`). Trees are immutable and carry the numbers by which the manager's map finds them.
  What the optimiser returns is given by functions of its operands and its memory; the manager's methods compute them,
  and the theorems are about them. Values are exact rationals; sums, differences and products of integers are also
  valued modulo any word size.
- **The expression printer** (`ExpressionText`, `PrinterReading`, `PrinterMeaning`). The printed tokens are read
  back by a parser for section 6.5 of ISO/IEC 9899:1999.
- **Lowering PTX guards** (`PtxPredicates`, `PtxSimulation`, `PtxPass`, `PtxNames`, `PtxGuards`). A guarded machine and a
  machine with masks run the two sides of the pass (section 9.3 of the PTX ISA, Predicated Execution).
- **Register flow and pointer arguments** (`RegisterFlow`, `PointerChains`, `PointerTypes`).
- **Collapsing regions** (`RegionPaths`, `RegionLists`, `RegionEdits`, `RegionMade`, `RegionShapes`, `RegionBranches`,
  `RegionJoins`, `RegionPasses`, `RegionCollapse`, `RegionLimits`). What the passes make of a region graph is given by functions, edit
  by edit; the object's methods compute them in place, and the theorems are about them.
- **Registers, fields and selectors** (`Shifts`, `BitFields`, `WideMultiply`, `SignedSums`, `SumTexts`, `SelectorText`).

`Options`, `Arithmetic` and `WorkItems` are shared helpers. `dafny verify dfyconfig.toml` checks the whole project.

## What the proofs found

These are properties the code does not have on all inputs. Each is stated by a lemma with an input, an exact
condition, or both.

- A second else of one block leaves lanes behind for good (`SecondElses.SecondElseMissesText`, exact condition in
  `SecondElses.LanesStayExactly`).
- A sum that subtracts one content twice or more beyond its additions loses both subtractions: `(a - x) + (b - x)`
  becomes `a + b` (`OptimiserLimits.SubtractedTwiceIsLost`, exact condition in
  `Cancellation.CancelKeepsSumExactly`).
- `x && 1` becomes `x`, and `x && 0x0` becomes `x` too, because the text of a constant counts as true
  (`OptimiserLimits.AndWithOneIsNotExact`, `OptimiserLimits.ZeroTextIsTrue`, exact condition in
  `OptimiserValues.LogicalKeepsExactly`).
- Constants kept as text are read in base 16, also texts like `1e5` (`OptimiserLimits.ExponentIsFolded`; such texts are
  never read right, `ExponentTexts.ExponentIsMisread`, so that `0e5` is not taken for zero and `1e0` not for one,
  `OptimiserLimits.ZeroIsDivisor`, `OptimiserLimits.OneIsFactor`; exact conditions for tests and folding in
  `OptimiserLimits.TestsExactly`, `OptimiserLimits.FoldedTextExactly`). The predicate `Plain` says that a tree has none
  that this misreads (`ExponentTexts.ExponentTextIsNotPlain`).
- A number of groups times their size, added to a group id times the local size, becomes the global size, which loses
  the latter (`GlobalSizeLoss.SizesLose`, exact condition in `GlobalSizeLoss.SizesKeepExactly`).
- `8 / (4 / 2)` is printed as `8 / 4 / 2` (`PrinterMeaning.NestedDivisionIsRegrouped`, exact condition in
  `PrinterMeaning.PrintingKeepsValueExactly`).
- The PTX pass builds `Not` without the operation type its constructor demands, so as written it fails on every
  program that negates a guard (`PtxPass.FailsExactlyOnNegation`). Everything else about the pass is proved for a
  `Not` that can be built.
- An instruction that writes the guard it shares with the next one breaks the lowering
  (`PtxGuards.SoundExactlyWithoutSelfWrites`).
- The 64-bit multiply is wrong in place (`WideMultiply.WideMultiplyExactly`).
- Combining signed terms into a global id ignores their signs (`SignedSums.FoldingIsExact`), and opposite factors of
  a product are dropped as if they were summands (`SignedSums.ProductsLoseFactors`); exact conditions for whole runs in
  `SignedSums.SumKeptExactly` and `SignedSums.ProductKeptExactly`.
- A shift that cuts a bit field drops the rest of it (`BitFields.ShiftIsExact`). A mask selects the field that begins
  where the mask does, whole and unmoved, so that masking with `0xff00` yields the byte instead of 256 times the byte
  (`BitFields.HighMaskIsNotMoved`), and a mask narrower than a field the whole field; exact condition in
  `BitFields.MaskSelectsExactly`.
- `join_regions` compares a region with a region type (src/regions/functions_for_regions.py:107), so below a branch it
  swallows whatever follows: a join shared with an outer branch, whose lists then contradict each other
  (`RegionLimits.SharedJoinBreaks`), or a branch, whose second child is lost (`RegionLimits.SecondChildIsLost`).
  `add_parent_and_child` looks at the first parent only, which leaves a condition with several parents to the others
  (`RegionLimits.SharedConditionBreaks`). Exact condition in `RegionPasses.IfExactly` and `RegionPasses.IfElseExactly`.

## Model

| member | source | states |
|---|---|---|
| ExecConditions.MakeNotNegates | src/logical_variable.py:111-115 | negating a condition text flips its truth for every lane, also for texts that are negations already |
| ExecConditions.NegationsDisagree | src/logical_variable.py:107-109 | two texts recognised as negations of each other differ in every lane |
| ExecConditions.FromConditionsHolds | src/logical_variable.py:100-105 | a mask built from conditions selects the lanes on which all of them hold, default text or not |
| ExecConditions.AndIsConjunction | src/logical_variable.py:10-13 | `&` adds a conjunct |
| ExecConditions.SupersetImplies | src/logical_variable.py:47-57 | a mask with more conditions selects fewer lanes |
| ExecConditions.SiblingsSplit | src/logical_variable.py:70-84 | negated siblings split the lanes of their parent between them |
| ExecConditions.SiblingsApart | src/logical_variable.py:70-84 | the sibling parent lies strictly within both siblings, and neither of them within the other |
| ExecConditions.SiblingsExactly | src/logical_variable.py:70-84 | two masks that add one condition each to a common part are siblings iff those conditions negate each other |
| ExecConditions.OrIsDisjunction | src/logical_variable.py:15-23 | where `or` yields a mask, it selects the lanes of either operand |
| ExecConditions.OrExactly | src/logical_variable.py:15-23 | a mask is formed exactly for siblings and for masks of which one lies within the other, and holds the conditions they have in common |
| ExecConditions.XorFromIsDifference | src/logical_variable.py:59-68 | removing the one added condition selects the lanes of the smaller mask outside the larger |
| ExecConditions.XorIsExclusiveOr | src/ir/asm_to_ir/amd/instruction_rules.py:284-290 | `^` is exclusive or; when one mask lies within the other it is "saved and not exec", so lowering `s_andn2` to it is exact |
| ExecConditions.XorExactly | src/logical_variable.py:27-31 | `^` is formed exactly where one mask adds one condition to the other, and is the other with that condition negated |
| MaskCfg.StaysOk | src/ir/passes/decompilation/cfg.py:114-129 | adding one node behind the nodes it is attached to keeps indices and block references valid |
| LanePaths.StepFollows | src/ir/passes/decompilation/cfg.py:73-129 | one step keeps stack and levels together, and each lane either moves to the new node or waits where it was; an ordinary instruction moves exactly the lanes of the mask |
| LanePaths.RunReaches | src/ir/passes/decompilation/cfg.py:73-129 | at every point of a well-nested run each lane's path holds what the masks let the lane execute so far |
| LanePaths.LaneFollowsItsPath | src/ir/passes/decompilation/cfg.py:69-132 | for every well-nested program and every lane, the lane's path from entry reaches the end of the program and carries, in order, exactly the instructions the masks let it execute |
| CfgShape.EdgesAreMutual | src/ir/passes/decompilation/cfg.py:18-31 | for any program, child and parent lists state the same edges once each, all leading forward |
| CfgShape.OpenMasksFormAChain | src/ir/passes/decompilation/cfg.py:82-129 | in every reachable state of a well-nested run the open masks grow strictly from the default to the current mask |
| CfgShape.OnlyMaskChangesBranch | src/ir/passes/decompilation/cfg.py:69-132 | in the finished graph only mask changes have two children and none has more |
| CfgShape.ClosingAddsOneParentPerBlock | src/ir/passes/decompilation/cfg.py:48-63 | closing to a level pops exactly the blocks above it and adds one parent for each, all different, except that the innermost may coincide with the last node |
| NextNodes.StepMakes | src/ir/passes/decompilation/cfg.py:73-129 | every step of any program adds one node with the instruction and the mask that holds behind it, and leaves the parents of all others |
| NextNodes.ParentsExactly | src/ir/passes/decompilation/cfg.py:82-129 | for any program: unless a block is turned to its else, the next node hangs under the last one, except behind a jump, and under the ends of the blocks it closes, which are those that restrict the next mask further; and under nothing else |
| NextNodes.TurnExactly | src/ir/passes/decompilation/cfg.py:95-112 | where a block is turned, the next node hangs under its mask change alone; which blocks stay open, and where the first branch ended |
| NextNodes.NothingBehindJumps | src/ir/passes/decompilation/cfg.py:82-129 | in the finished graph of any program a jump is no parent of the next node, unless it ends a block which that node closes, and without any the next node has no parent; behind any other node, an instruction that turns no block hangs under it |
| SecondElses.SecondElseStrandsLanes | src/ir/passes/decompilation/cfg.py:104-120 | the lanes of the first branch stay behind where it ended when its block is flipped a second time |
| SecondElses.StaysBehind | src/ir/passes/decompilation/cfg.py:85-130 | and no later instruction, whatever it is, moves them on |
| SecondElses.LanesStayExactly | src/ir/passes/decompilation/cfg.py:85-130 | of the programs well nested but for second elses that some lane takes, exactly the well-nested ones keep every lane on a path that runs what it executes |
| SecondElses.SecondElseMissesText | src/ir/passes/decompilation/cfg.py:104-120 | if a, else, then a again: a lane executes the text but its path does not reach it |
| CfgBuilder.Builder.FindOpenMaskIndex | src/ir/passes/decompilation/cfg.py:34-45 | the backward search finds the last open block with the mask below the end |
| CfgBuilder.Builder.CloseOpenMasks | src/ir/passes/decompilation/cfg.py:56-63 | the popping loop leaves the specified prefix of the stack and the specified parents |
| CfgBuilder.Builder.Emit | src/ir/passes/decompilation/cfg.py:114 | the new node is linked with each of its parents and no other node changes |
| CfgBuilder.Builder.FindElse | src/ir/passes/decompilation/cfg.py:95-106 | where an else starts and how many blocks stay below it |
| CfgBuilder.Builder.Prepare | src/ir/passes/decompilation/cfg.py:74-112 | parents, inherited mask and stack change of the next node are those of the specification |
| CfgBuilder.Builder.Commit | src/ir/passes/decompilation/cfg.py:114-129 | the planned node and the planned block are added |
| CfgBuilder.Builder.Take | src/ir/passes/decompilation/cfg.py:73-129 | one turn of the loop is one step of the machine that the lane theorems are about |
| CfgBuilder.Builder.TakeAll | src/ir/passes/decompilation/cfg.py:69-132 | the whole loop is the whole run of that machine |
| Cancellation.CancelKeepsSumExactly | src/expression_manager/expression_manager.py:82-95 | cancelling keeps the sum under every valuation iff no content is subtracted more than once beyond its additions |
| Cancellation.CancelLeavesNoPair | src/expression_manager/expression_manager.py:82-95 | no content is left with both signs |
| Expressions.ContentsEqualIsEquality | src/expression_manager/expression_node.py:236-247 | `contents_equal` is equality of trees up to node numbers, outside conditions of ternaries |
| Expressions.ContentsKeepValue | src/expression_manager/expression_node.py:236-247 | the contents of a tree have its value |
| SumTerms.SumListWorth | src/expression_manager/expression_optimizations.py:53-94 | the flattened terms of two operands, with their signs, are worth the sum of the operands |
| SumTerms.CancelKeepsWorth | src/expression_manager/expression_manager.py:82-97 | under the guard, the cancelled list is worth the same |
| SumTerms.PartsMakeGlobalId | src/expression_manager/expression_manager.py:101-148 | offset, group id times local size (either order) and local id of one dimension are worth its global id |
| SumTerms.FoldRound | src/expression_manager/expression_manager.py:135-148 | the first term of each part is in the list, and one round takes exactly one of each part |
| SumTerms.FoldRoundWorth | src/expression_manager/expression_manager.py:135-148 | and keeps what the list is worth |
| SumTerms.SwapWorth | src/expression_manager/expression_manager.py:190-196 | moving a positive term to the front keeps what the list is worth |
| OptimiserGuards.FoldIsRight | src/expression_manager/expression_helper_functions.py:108-161 | folding two constants gives the operation's truth value, and its value iff, for `and` and `or`, Python's result is 0 or 1 |
| OptimiserGuards.ComplementIsExact | src/expression_manager/expression_node.py:53-71 | the table's inverse of a comparison is its exact complement |
| OptimiserGuards.OperationPair | src/expression_manager/expression_manager.py:396-405 | the original of an operation on optimised nodes, made of right entries, is worth what the operation is worth |
| OptimiserGuards.TernaryPair | src/expression_manager/expression_manager.py:511-530 | and so is that of a ternary |
| OptimiserTypes.OperationsAreTyped | src/expression_manager/expression_manager.py:353-409 | if not both operands are constants, every operation node created for the result, and the original that is registered, has the type of the left operand if that is a pointer or global variable, or else of the right one if that is, or else the equal or common type; except a folded quotient, which keeps the type of its product, and a group id times local size |
| OptimiserTypes.AddressIsPointer | src/expression_manager/expression_manager.py:73-77 | a pointer variable plus another variable is an operation of the type of the pointer |
| OptimiserSums.GlobalIdsExactly | src/expression_manager/expression_manager.py:131-148 | as many global ids come in as there are of each part; they stand at the end, behind what is left without the first ones of each part, in order |
| OptimiserSums.GlobalSizesExactly | src/expression_manager/expression_manager.py:172-185 | and the same for global sizes and their two parts |
| OptimiserSums.PositiveFirstExactly | src/expression_manager/expression_manager.py:190-204 | the first positive term changes places with the first one; without any, a zero comes first |
| OptimiserSums.TreeIsItsTerms | src/expression_manager/expression_manager.py:206-215 | the tree that is built flattens to its terms, in order, without the zeros |
| OptimiserSums.SumIsFinished | src/expression_manager/expression_manager.py:79-215 | an optimised sum begins with an added term, has no zero behind it, and holds no parts of a global id or global size that could still be folded; only a sum that cancels out stays as it was given |
| OptimiserSums.TermsStayInOrder | src/expression_manager/expression_manager.py:79-215 | without anything to cancel or fold, its terms are those of the operands, the added ones first, each in their order |
| OptimiserSums.GlobalIdIsFound | src/expression_manager/expression_manager.py:79-215 | however the three parts of a global id are grouped and ordered in a sum, it becomes the global id |
| OptimiserLaws.ConstantsFold | src/expression_manager/expression_manager.py:379-386 | two constants become the folded constant, of their common type |
| OptimiserLaws.UnitsGo | src/expression_manager/expression_manager.py:217-315 | x + 0, 0 + x, x - 0, x * 1, 1 * x and x / 1 are x; x * 0 is 0; x / 0 fails |
| OptimiserLaws.SignsTurn | src/expression_manager/expression_manager.py:217-263 | a sum with a negative constant, on either side, is a difference, and a difference of one a sum |
| OptimiserLaws.DifferencesShrink | src/expression_manager/expression_manager.py:241-263 | x - x is 0; 0 - (x - y) is what y - x is; 0 - p is -1 * p |
| OptimiserLaws.QuotientsFold | src/expression_manager/expression_manager.py:300-313 | (x * c) / d is x * (c / d), or x |
| OptimiserLaws.GroupsFold | src/expression_manager/expression_optimizations.py:97-117 | a group id times the declared size, in either order, is the group id times the local size |
| OptimiserLaws.ConstantsDecide | src/expression_manager/expression_manager.py:340-351 | which operand or constant a logical operation with one constant becomes |
| OptimiserLaws.NegationsShrink | src/expression_manager/expression_manager.py:414-426 | negations of negations, comparisons and constants are rewritten, and no others; a comparison to one that holds exactly where it does not |
| OptimiserLaws.OthersStay | src/expression_manager/expression_manager.py:353-409 | an operation other than a sum to which none of these rules applies stays as it was called |
| OptimiserLaws.SumsAreFlattened | src/expression_manager/expression_manager.py:217-239 | a sum without zeros and negative constants is made of its terms; a fraction added to a pointer is replaced by the operation that made it |
| OptimiserLaws.EntriesSpellOut | src/expression_manager/expression_manager.py:396-408 | the entry of what a call returns is the operation on the originals of its operands, and no other entry changes |
| OptimiserLaws.OtherEntriesSpellOut | src/expression_manager/expression_manager.py:411-435 | the entry of a rewritten negation is the negation, and that of a ternary the ternary of the originals |
| OptimiserLaws.RebuildingApplies | src/expression_manager/expression_manager.py:683-697 | rebuilding applies the rules to rebuilt operands: with zero for y, x + y * z becomes x |
| OptimiserValues.GlobalIdsKeep | src/expression_manager/expression_manager.py:112-148 | folding offset, group id times local size and local id into global ids keeps what the list is worth |
| OptimiserValues.GlobalIdsExhaust | src/expression_manager/expression_manager.py:131-148 | and goes on until one of the three parts has run out |
| OptimiserValues.InDimensionsKeep | src/expression_manager/expression_manager.py:97-185 | without group counts, all the foldings together keep what the list is worth |
| OptimiserValues.PositiveFirstKeeps | src/expression_manager/expression_manager.py:190-204 | afterwards the first term is positive, and the list is worth the same |
| OptimiserValues.SumTreeWorth | src/expression_manager/expression_manager.py:206-215 | the left-leaning tree is worth its terms, also where zeros are skipped |
| OptimiserValues.FlattenedComputes | src/expression_manager/expression_manager.py:79-215 | the flattened sum is the sum, if no content is subtracted twice beyond its additions and no group count occurs |
| OptimiserValues.AbsTurnsSign | src/expression_manager/expression_manager.py:229-232 | adding a negative constant is subtracting its absolute value and the other way round |
| OptimiserValues.ZeroMinusDifference | src/expression_manager/expression_manager.py:247-251 | 0 - (x - y) is y - x |
| OptimiserValues.ZeroMinusProduct | src/expression_manager/expression_manager.py:252-253 | 0 - p is -1 * p |
| OptimiserValues.SumComputes | src/expression_manager/expression_manager.py:217-239 | the mutually recursive sum rewriting is the sum under its guard |
| OptimiserValues.DifferenceComputes | src/expression_manager/expression_manager.py:241-263 | and the difference rewriting the difference |
| OptimiserValues.GroupTimesSize | src/expression_manager/expression_optimizations.py:97-117 | a group id times the declared size is the group id times the local size |
| OptimiserValues.QuotientFolded | src/expression_manager/expression_manager.py:300-313 | (x * c) / d is x * (c / d), and x when the constants cancel |
| OptimiserValues.LogicalKeepsExactly | src/expression_manager/expression_manager.py:340-351 | with one constant operand, the truth is right for a work item iff the constant is no text spelling zero or the other operand decides, and the value iff moreover a returned operand is a bit |
| OptimiserValues.NegationKeepsExactly | src/expression_manager/expression_manager.py:414-426 | double negation, inverted comparison and negated constant have the opposite truth, and the value of the negation iff what a double negation leaves is a bit |
| OptimiserValues.OperationFailsExactly | src/expression_manager/expression_manager.py:353-409 | which operands raise which exception, among constants whose text is hexadecimal |
| OptimiserValues.OperationKeeps | src/expression_manager/expression_manager.py:353-394 | under a guard on the operands, every operation keeps its value, the logical ones their truth |
| OptimiserValues.OperationOf | src/expression_manager/expression_manager.py:353-394 | and every operation on trees of one sort (plain, neat, natural, ring) yields a tree of that sort |
| OptimiserRuns.CallEntries | src/expression_manager/expression_manager.py:396-408 | a call changes the entry of the node it returns and no other, and a guarded call on operands with right entries makes it right |
| OptimiserRuns.CallsKeepEntry | src/expression_manager/expression_manager.py:396-408 | after any sequence of calls, guarded or not, an entry is right if the last call that made it was guarded |
| OptimiserRuns.CallsKeepMap | src/expression_manager/expression_manager.py:396-435 | after any sequence of guarded calls every entry pairs two trees of equal value |
| OptimiserRuns.RebuiltAgrees | src/expression_manager/expression_manager.py:683-697 | a rebuilt tree has the truth of the tree if the logical operators are outermost, and its value if there are none or no step traded a value for its truth, provided every operation met is within its guard |
| OptimiserRuns.RebuiltKeepsMap | src/expression_manager/expression_manager.py:683-697 | and a right map stays right |
| TameTrees.TameKeepsValue | src/expression_manager/expression_manager.py:683-697 | told by the shape of the tree alone: rebuilding keeps the value of trees whose sums add natural trees, one of which may have a leaf taken away, and whose differences take natural trees away, with logical operators on bits only |
| TameTrees.TameKeepsTruth | src/expression_manager/expression_manager.py:683-697 | and the truth where the logical operators are outermost |
| TameTrees.ConditionKeepsTruth | src/expression_manager/expression_manager.py:683-697 | comparisons of leaves joined by NOT, AND and OR are rebuilt without exceptions and with the same truth, unless a text spells zero |
| TameTrees.ReplacingKeepsValue | src/expression_manager/expression_manager.py:699-725 | in every environment where the replaced and the replacing tree agree, replacing a node keeps its value |
| TameTrees.ReplacingKeepsTruth | src/expression_manager/expression_manager.py:699-725 | or its truth, where logical operators are outermost |
| TameTrees.ReplacingInNatural | src/expression_manager/expression_manager.py:699-725 | told by shape alone: a natural tree in place of a part of a natural original keeps the value |
| ExpressionManager.Manager.Reset | src/expression_manager/expression_manager.py:58-62 | a new kernel starts without nodes, sizes and originals; numbers go on |
| ExpressionManager.Manager.FirstEqual | src/expression_manager/expression_manager.py:89-93 | the inner search finds the first kept term with equal contents |
| ExpressionManager.Manager.CancelTerms | src/expression_manager/expression_manager.py:82-95 | the two loops compute the cancelled list |
| ExpressionManager.Manager.FoldGlobalIds | src/expression_manager/expression_manager.py:112-148 | the loop over three lists computes the specified folding |
| ExpressionManager.Manager.FoldGlobalSizes | src/expression_manager/expression_manager.py:150-185 | and so does the loop for global sizes |
| ExpressionManager.Manager.PutPositiveFirst | src/expression_manager/expression_manager.py:190-204 | the search and the swap yield the specified list |
| ExpressionManager.Manager.BuildSum | src/expression_manager/expression_manager.py:206-215 | the loop builds the specified tree |
| ExpressionManager.Manager.ParseAndOptimizeSum | src/expression_manager/expression_manager.py:79-215 | all steps together are the specified flattened sum, which fails iff a group count is added in a dimension without a declared size |
| ExpressionManager.Manager.SumOf | src/expression_manager/expression_manager.py:217-239 | terminates with the specified sum |
| ExpressionManager.Manager.DifferenceOf | src/expression_manager/expression_manager.py:241-263 | terminates with the specified difference, by mutual recursion with sums |
| ExpressionManager.Manager.ProductOf | src/expression_manager/expression_manager.py:265-286 | the specified product; one that becomes group id times local size is registered on the way |
| ExpressionManager.Manager.QuotientOf | src/expression_manager/expression_manager.py:288-315 | the specified quotient |
| ExpressionManager.Manager.LogicalOperation | src/expression_manager/expression_manager.py:317-351 | the specified logical operation |
| ExpressionManager.Manager.Register | src/expression_manager/expression_manager.py:396-408 | the map gains the operation on the originals of its operands |
| ExpressionManager.Manager.AddOperation | src/expression_manager/expression_manager.py:353-409 | returns the specified node and registers it; fails exactly as stated, and under the guard keeps the value or truth, whatever happened before |
| ExpressionManager.Manager.AddLogicalNot | src/expression_manager/expression_manager.py:411-435 | returns and registers the specified node, which has the opposite truth |
| ExpressionManager.Manager.AddIfTernary | src/expression_manager/expression_manager.py:511-530 | the map gains the ternary on the originals |
| ExpressionManager.Manager.ApplyOptimizations | src/expression_manager/expression_manager.py:683-697 | returns the specified tree; it agrees with the tree given if every operation met is within its guard, and always for conditions without zero texts |
| ExpressionManager.Manager.ReplaceNode | src/expression_manager/expression_manager.py:699-725 | returns the specified tree, worth what the node was wherever the two trees agree, if the entries used are right and the changed tree is rebuilt within the guards |
| Replacement.ReplaceKeepsValue | src/expression_manager/expression_node.py:313-342 | replacing by contents keeps the value where the two trees agree |
| Replacement.ReplacedKeepsValue | src/expression_manager/expression_manager.py:699-725 | so do the up to three replacements on originals, if the entries used are right |
| Replacement.ReplaceLeavesNone | src/expression_manager/expression_node.py:313-342 | nothing with the replaced contents is left, if neither tree contains the other |
| Substitution.ReplaceSubstitutes | src/expression_manager/expression_node.py:313-342 | replacing a variable is setting it to the value of the replacement, and leaves no variable of that name |
| Substitution.ReplacedExactly | src/expression_manager/expression_manager.py:699-725 | if what is looked for (the original of the node to replace, or else that node itself) occurs, and neither it nor the replacement contains the other, the replacement comes in and it is gone; if neither occurs, nothing changes |
| Substitution.ReplacingSubstitutes | src/expression_manager/expression_manager.py:699-725 | in every environment the new node is worth what the old one is worth with the variable set to the value of the replacement, for a variable without an entry, if the entry of the node is right and the changed tree is rebuilt within the guards |
| RingWords.WordIsIntModulo | src/expression_manager/expression_manager.py:217-286 | evaluating with reduction at every step is the integer value modulo the word size |
| RingWords.OptimisedKeepsWords | src/expression_manager/expression_manager.py:217-286 | an optimised sum, difference or product of integer trees without division has the value of the operation modulo every word size, for every work item obeying the laws of the kernel modulo that size |
| GlobalSizeLoss.SizesLose | src/expression_manager/expression_manager.py:150-185 | every global size that is folded loses one group id times local size |
| GlobalSizeLoss.SizesKeepExactly | src/expression_manager/expression_manager.py:150-185 | so folding keeps the sum iff nothing is folded, or in the group that starts at zero |
| OptimiserLimits.SubtractedTwiceIsLost | src/expression_manager/expression_manager.py:86-95 | (a - x) + (b - x) becomes a + b, which differs |
| OptimiserLimits.AndWithOneIsNotExact | src/expression_manager/expression_manager.py:346-348 | x && 1 becomes x: same truth, different value |
| OptimiserLimits.ZeroTextIsTrue | src/expression_manager/expression_manager.py:340-348 | x && 0x0 becomes x: different truth |
| OptimiserLimits.ExponentIsFolded | src/expression_manager/expression_helper_functions.py:111-119 | 1e5 + 1 becomes 486 |
| OptimiserLimits.TestsExactly | src/expression_manager/expression_optimizations.py:12-48 | for a text of digits, e and digits the test for zero is right iff the mantissa is not zero, that for one iff it is not 1 with exponent 0, that for a negative number always |
| OptimiserLimits.ZeroIsDivisor | src/expression_manager/expression_manager.py:288-315 | x / 0e5 becomes a quotient, not the exception for a division by zero |
| OptimiserLimits.OneIsFactor | src/expression_manager/expression_manager.py:265-286 | x * 1e0 is not simplified to x |
| OptimiserLimits.FoldedTextExactly | src/expression_manager/expression_helper_functions.py:111-150 | folding a text with a number is right iff the text is read right, the other factor is zero, or both readings compare alike |
| OptimiserLimits.FoldedNumberExactly | src/expression_manager/expression_helper_functions.py:111-150 | the same with the text on the right |
| ExponentTexts.ExponentIsMisread | src/expression_manager/expression_helper_functions.py:192-195 | a text of digits, e and digits, which is kept as a constant, is never read as the number it means |
| PrinterReading.ChainsLackBrackets | src/expression_manager/expression_helper_functions.py:267-280 | the bracket rule leaves an operand bare iff it is a single number or name, or has the same operator and that is not minus, a shift or a bitwise operator |
| PrinterReading.TextIsRead | src/expression_manager/expression_helper_functions.py:227-333 | the text of every tree parses completely, to the tree with chains regrouped to the left |
| PrinterReading.ReadingPrintsTheSame | src/expression_manager/expression_helper_functions.py:283-333 | the parsed tree prints to the same text |
| PrinterReading.BracketsAreCounted | src/expression_manager/expression_helper_functions.py:227-333 | and no other brackets are printed than those of such operands, one pair for a negation and a minimum, and three for a ternary |
| PrinterMeaning.ReadingKeepsValue | src/expression_manager/expression_helper_functions.py:267-280 | for every meaning of the operators in which sum, product, and, or and xor associate, trees without a division, remainder or comparison in its own right operand keep their value |
| PrinterMeaning.PrintingKeepsValueExactly | src/expression_manager/expression_helper_functions.py:274-276 | and no other trees do |
| PrinterMeaning.NestedDivisionIsRegrouped | src/expression_manager/expression_helper_functions.py:274-276 | 8 / (4 / 2) prints as 8 / 4 / 2, which is 1 instead of 4 |
| PtxPredicates.ErasingGivesInput | src/ir/passes/ptx/predicates.py:15-49 | erasing the added instructions gives back the input in order, guards cleared |
| PtxPredicates.MasksAreBalanced | src/ir/passes/ptx/predicates.py:18-47 | masks open and close in turn, never nested, never open at a label or branch |
| PtxSimulation.TargetsAgree | src/ir/passes/ptx/predicates.py:18-23 | branch targets move with their labels |
| PtxSimulation.Simulates | src/ir/passes/ptx/predicates.py:11-49 | every guarded run is followed by a masked run in related states, at least as long |
| PtxSimulation.LoweredEndsTheSame | src/ir/passes/ptx/predicates.py:11-49 | a guarded run that ends is matched by a masked run ending with the same data and predicates, if on the way no instruction falsifies the guard it shares with the next |
| PtxSimulation.LoweredRunsAsLong | src/ir/passes/ptx/predicates.py:11-49 | while the guarded run goes on the masked run does not end |
| PtxPass.Kernel.Append | src/ir/passes/ptx/predicates.py:18-44 | one turn of the loop appends the specified chunk |
| PtxPass.Kernel.ReadOne | src/ir/passes/ptx/predicates.py:15-44 | and clears the guard in place, or fails on a Not |
| PtxPass.Kernel.ReadThrough | src/ir/passes/ptx/predicates.py:12-44 | the loop stops at the end or at the first Not it cannot build |
| PtxPass.Kernel.RunPredicatesPass | src/ir/passes/ptx/predicates.py:11-49 | the pass produces the lowered list and the predicates it made up, or fails on the first Not with the guards read so far cleared |
| PtxPass.FailsExactlyOnNegation | src/ir/instructions/common/not_instruction.py:11-14 | as written it fails on exactly the programs with a negated guard |
| PtxNames.AssignedIsNegation | src/ir/passes/ptx/predicates.py:26-35 | each predicate that the output assigns is spelled like a negated guard with `Not` behind it |
| PtxNames.PredicatesExactly | src/ir/passes/ptx/predicates.py:27-29 | each of them joins the predicates of the kernel; the others are the old ones, if no guard is spelled like a name the pass makes up |
| PtxNames.SpellingTells | src/ir/passes/ptx/predicates.py:36 | names whose stems do not end in `Not` are told apart by their texts |
| PtxNames.FreshExactly | src/ir/passes/ptx/predicates.py:26-29 | the names that the pass makes up are new iff no guard is spelled like a negated guard with `Not` behind it |
| PtxGuards.NoSelfWriteKeepsGuards | src/ir/passes/ptx/predicates.py:25-44 | which no run of a program does whose instructions are not declared to write the guard they share with the next |
| PtxGuards.NoSelfWriteIsSound | src/ir/passes/ptx/predicates.py:25-44 | such programs, with labels and branches or without, end when their lowered forms end, with the same data |
| PtxGuards.SoundExactlyWithoutSelfWrites | src/ir/passes/ptx/predicates.py:25-44 | and only such programs do, whatever they are, over all behaviours within the declared writes |
| RegisterFlow.LastWriterIsGreatest | src/ir/passes/ptx/register_flow.py:36-60 | the last writer is the greatest earlier index writing the register, or none exists |
| RegisterFlow.FlowGraph.AddEdge | src/ir/passes/ptx/register_flow.py:48-55 | an added edge keeps edge list, writer map and uses by writer in agreement |
| RegisterFlow.FlowGraph.RecordReads | src/ir/passes/ptx/register_flow.py:43-55 | all registers read by an instruction get their last writer, in whatever order the set yields them |
| RegisterFlow.FlowGraph.Build | src/ir/passes/ptx/register_flow.py:36-60 | the index maps (instruction, register) to a writer iff the register is read there and written before, to its last writer, and the three views agree |
| RegisterFlow.NoteWrites | src/ir/passes/ptx/register_flow.py:57-58 | the loop's bookkeeping stays the last-writer function |
| PointerChains.FindsExactlyWhatChainsReach | src/ir/passes/ptx/pointer_types.py:60-98 | stopping at the first success finds something iff any definition chain at all leads to a suitable argument |
| PointerChains.ClosedHoldsReached | src/ir/passes/ptx/pointer_types.py:70-96 | a visited set closed under the links of its misses holds everything reachable |
| PointerChains.TypesNeverChange | src/ir/passes/ptx/pointer_types.py:124-132 | a type once inferred never changes during the pass |
| PointerChains.InferredWhenFound | src/ir/passes/ptx/pointer_types.py:26-58 | an argument gets a type iff some access finds it |
| PointerChains.FirstAccessDecides | src/ir/passes/ptx/pointer_types.py:26-58 | namely the type of the first access that finds it |
| PointerTypes.KernelArguments.Add | src/ir/kernel_components.py:17-37 | a new argument is listed under its name and offset, also where they are in use; arguments stay told apart by name iff no other offset holds one of that name; pointers have eight bytes |
| PointerTypes.KernelArguments.UpdatePointerByOffset | src/ir/kernel_components.py:48-62 | changes the type of the argument added last under the name of the one at that offset and nothing else; that is the one at the offset while names tell arguments apart |
| PointerTypes.PointerInference.TryUpdate | src/ir/passes/ptx/pointer_types.py:100-132 | succeeds iff the writer loads a suitable pointer argument, and then infers at most that one type |
| PointerTypes.PointerInference.Propagate | src/ir/passes/ptx/pointer_types.py:60-98 | terminates; visits only reachable uses, closes them under the links of misses, succeeds iff a visited use is a hit, and infers exactly the hits |
| PointerTypes.SearchFindsAll | src/ir/passes/ptx/pointer_types.py:60-98 | started with nothing visited it infers exactly what is found and reports success iff something is |
| PointerTypes.PointerInference.Run | src/ir/passes/ptx/pointer_types.py:26-58 | the pass computes the types, the count and the argument table of its specification |
| RegionPaths.LeavesThroughExit | src/regions/functions_for_regions.py:189-212 | a walk out of a part with one exit is a walk to the exit and what follows |
| RegionPaths.CollapseKeepsPaths | src/regions/functions_for_regions.py:13-21 | a region in place of a part with one exit keeps the node paths from every outer region, and has the paths of the entry |
| RegionPaths.SubdividingKeepsPaths | src/regions/functions_for_regions.py:59-71 | a region that contributes nothing, put on some edges to a region, changes no node path |
| RegionLists.InsertGood | src/regions/functions_for_regions.py:13-21 | the list edits keep parent and child lists mutual and without repetition on the outer graph, and touch no inside |
| RegionLists.InsertKeepsPaths | src/regions/functions_for_regions.py:13-21 | and keep all node paths |
| RegionLists.SubdivideGood | src/regions/functions_for_regions.py:59-71 | so does the insertion of a region that contributes nothing |
| RegionShapes.InsertTidy | src/regions/functions_for_regions.py:13-21 | a region in place of a part with one entry and one exit keeps lists mutual and without repetition, children behind parents, and all but branches with one child and one parent at most |
| RegionShapes.IfIsShaped | src/regions/functions_for_regions.py:24-36 | in such a graph the test finds a branch whose arms are no branches iff it is an if |
| RegionShapes.IfElseIsShaped | src/regions/functions_for_regions.py:39-48 | and the other test iff it is an if with an else; nothing is both |
| RegionShapes.IfArms | src/regions/functions_for_regions.py:191-192 | the numbers of parents tell the arm from the join |
| RegionMade.JoinMakes | src/regions/functions_for_regions.py:74-118 | in any graph, which linear regions joining makes, from where to where, and which one is returned |
| RegionMade.IfMakes | src/regions/functions_for_regions.py:189-199 | collapsing an if makes an if region from the condition to the join, or to the region put before a join with further parents, and changes the type and body of no other |
| RegionMade.IfElseMakes | src/regions/functions_for_regions.py:202-212 | and an if with an else a region of its own type |
| RegionBranches.SealedExactly | src/regions/functions_for_regions.py:13-21 | one region for a branch, its arms and their join leaves lists that can agree iff one region leads to the branch, nothing else to the join, and the join has at most one child; then all paths are kept |
| RegionJoins.JoinKeeps | src/regions/functions_for_regions.py:74-118 | joining a line of regions raises no exception, keeps the graph tidy and all paths, and says which regions leave for which new one |
| RegionJoins.JoinBreaks | src/regions/functions_for_regions.py:107-117 | below a branch, if more leads to what follows or that has several children, no choice of outer regions that leaves out no others has agreeing lists |
| RegionPasses.IfExactly | src/regions/functions_for_regions.py:189-199 | collapsing an if raises no exception and makes an if region in its place; it keeps the graph tidy and all paths, and says which regions leave, iff one region leads to the condition, what leaves leads to at most one, and nothing else leads to what is swallowed below a branch; otherwise no lists agree |
| RegionPasses.IfElseExactly | src/regions/functions_for_regions.py:202-212 | the same with an else, and a region of that type |
| RegionPasses.RunKeeps | src/regions/functions_for_regions.py:439-455 | after any number of such passes the graph is tidy, and every region that is left has the paths it had at first |
| RegionLimits.SharedJoinBreaks | src/regions/functions_for_regions.py:107-117 | a nested if whose join is also that of the outer branch: afterwards the lists do not agree |
| RegionLimits.SharedConditionBreaks | src/regions/functions_for_regions.py:13-16 | a condition that two regions lead to: afterwards the lists do not agree |
| RegionLimits.SecondChildIsLost | src/regions/functions_for_regions.py:107-117 | an if that is followed by a branch, below a branch: afterwards the paths through the second child are lost |
| RegionCollapse.RegionGraph.CreateNewRegion | src/regions/functions_for_regions.py:59-71 | the in-place edits, in their order, are the insertion of a region that contributes nothing; it fails iff a search in the lists does |
| RegionCollapse.RegionGraph.AddParentAndChild | src/regions/functions_for_regions.py:13-21 | the in-place edits put one region in the place of a part |
| RegionCollapse.RegionGraph.JoinRegions | src/regions/functions_for_regions.py:74-118 | the specified one or two edits are made, and the region that stands for the first one is returned |
| RegionCollapse.RegionGraph.ProcessIfStatement | src/regions/functions_for_regions.py:189-199 | all edits of an if are made, in their order, with or without a join of its own |
| RegionCollapse.RegionGraph.ProcessIfElseStatement | src/regions/functions_for_regions.py:202-212 | all edits of an if with an else are made |
| Shifts.ShiftsAreArithmetic | src/combined_register_content.py:58-65 | shifts are division and multiplication by powers of two |
| Shifts.MaskFits | src/register_content.py:76-79 | a mask of low ones keeps a content iff the content has no more bits than the mask |
| Shifts.OrIsSum | src/ir/instructions/common/typed_memory.py:159-162 | or-ing what fits below a shifted number adds it |
| BitFields.ShiftToField | src/combined_register_content.py:161-218 | shifting by the offset of a field leaves the fields from there on |
| BitFields.ShiftIsExact | src/combined_register_content.py:161-218 | shifting the list is shifting the word iff no bits of a cut field lie above the cut |
| BitFields.ShiftedFields | src/combined_register_content.py:161-218 | which fields a shift leaves: those from the field it leads to, or zeros for the rest of the one it cuts and those behind it, if there are any |
| BitFields.ShiftRight | src/combined_register_content.py:161-218 | the loop with its flag computes the shifted list |
| BitFields.RunIsMask | src/combined_register_content.py:116-153 | one run of ones is a shifted mask of ones |
| BitFields.ScanMask | src/combined_register_content.py:127-153 | the scanner accepts exactly the masks with one contiguous run of ones, and finds its ends |
| BitFields.AcquireContent | src/combined_register_content.py:69-87 | finds a field that begins at the run and reaches its end, iff there is one |
| BitFields.MaskField | src/combined_register_content.py:107-156 | zero for a zero mask, the covered field for a run, nothing otherwise; the field is the masked word iff it is zero, or the run begins at bit 0 and covers its bits |
| BitFields.MaskedWord | src/combined_register_content.py:107-156 | the masked word is what the run of ones leaves of the field it covers, at the place of the run |
| BitFields.MaskSelectsExactly | src/instructions/sop2/s_and.py:116-130 | the field that is selected in its stead is the masked word iff it is zero, or the run begins at bit 0 and no bits of the field lie above it |
| BitFields.HighMaskIsNotMoved | src/combined_register_content.py:107-156 | of two bytes 0 and 1, masked with 0xff00, the second is selected, which is 1 and not 256 |
| BitFields.ExtractField | src/combined_register_content.py:107-218 | shifting by a field's offset and masking with its width yields that field, for any list of fields |
| BitFields.SimplifyKeepsWord | src/combined_register_content.py:46-67 | exactly a single field, and a field above bits that hold nothing, are taken out of their lists; what results is worth what the list was |
| WideMultiply.WideProduct | src/ir/instructions/common/mul.py:116-124 | the two computed halves are the product modulo the square of the base, for every base |
| WideMultiply.SixStepsMultiply | src/ir/instructions/common/mul.py:116-124 | the six steps leave it in the destination if that shares no register with the operands except its upper half with the second operand's |
| WideMultiply.Machine.MulWide | src/ir/instructions/common/mul.py:116-124 | the writes, one after the other, are those six steps |
| WideMultiply.WideMultiplyExactly | src/ir/instructions/common/mul.py:113-124 | 64-bit registers are multiplied right for all contents iff the destination is neither operand |
| SignedSums.RewriteShrinks | src/operation_register_content.py:291-326 | every rewriting leaves fewer terms |
| SignedSums.OppositesVanish | src/operation_register_content.py:215-223 | removing the found opposite pair keeps a sum |
| SignedSums.FoldingIsExact | src/operation_register_content.py:34-83 | folding a global id keeps the sum for every work item iff all matched terms are positive |
| SignedSums.SimplifyKeepsTotal | src/operation_register_content.py:214-328 | simplifying with the source's combinations ends with fewer terms and the same sum when global-id parts are only added |
| SignedSums.SumKeptExactly | src/operation_register_content.py:214-328 | simplifying a sum keeps it for every work item iff all that is folded on the way is parts of global ids that are added |
| SignedSums.SimplifyFinishes | src/operation_register_content.py:214-328 | what is left is a single term, or has no opposite terms and, in a sum, no combination |
| SignedSums.FinishedExactly | src/operation_register_content.py:214-328 | the searches miss nothing: no rewriting applies iff no two terms are opposite and, in a sum, no combination is complete |
| SumTexts.PrintedSumIsKept | src/operation_register_content.py:34-83 | for every valuation of texts in which the parts are worth what they are known to be and get_global_id(0) to (2) obey the law of their dimension, the simplified sum is printed as a text of the same value, if all that is folded is parts of global ids that are added |
| SumTexts.AddedAreNamed | src/operation_register_content.py:34-83 | every global id or size that comes in has the text of its own dimension, and is added |
| SumTexts.FoldsFirstWay | src/operation_register_content.py:303-316 | without opposite terms, of the ways to make up a global id or size the first one whose parts all occur is folded, its first parts go, and the global id or size comes in at the end |
| SumTexts.FirstPairIsFirst | src/operation_register_content.py:215-223 | no pair of opposite terms comes before the one that is removed |
| SumTexts.NothingLeftToFold | src/operation_register_content.py:214-328 | with the source's combinations, what is left is a single term, or has no opposite terms and the parts of no global id and of no global size |
| SignedSums.ProductsLoseFactors | src/operation_register_content.py:291-301 | x * -x * y becomes y |
| SignedSums.ProductKeptExactly | src/operation_register_content.py:291-328 | simplifying a product keeps it under every valuation iff no two factors are opposite |
| SelectorText.ValueOfHex | src/kernel_params.py:11-13 | the digits of a number have its value |
| SelectorText.WritersAgree | src/ir/instructions/common/typed_memory.py:159-162 | concatenating hex width and padded hex offset gives the text of width shifted by 16 bits or-ed with offset, from which both can be read |
| SelectorText.TextsDiffer | src/kernel_params.py:9-13 | different selectors have different texts |
| SelectorText.WritersAgreeExactly | src/kernel_params.py:9-13 | for offsets of 16 bits the two texts agree iff the width is positive |

## Left out

- Scalar branches in mask programs: the lane theorems assume well-nested mask changes without jumps; the theorems about edges and parents (`CfgShape.EdgesAreMutual`, `NextNodes`) do not.
- LanePaths.LaneFollowsItsPath: proved for well-nested programs; of programs that are not, only those with second elses are described (`SecondElses.LanesStayExactly`).
- `find_max_and_prev_versions` and all node contents other than mask and edges.
- `ExecCondition.__or__` for operands that are neither comparable nor siblings: the code passes a string where conditions are expected; the model yields no mask there.
- The lowering of `Not` and mask changes to backend nodes: one output instruction each.
- What sums with group counts are worth as a whole: the guard excludes them; what folding them loses in one dimension is `GlobalSizeLoss.SizesLose`.
- Texts of constants that are not hexadecimal, on which every test raises an exception.
- In-place type changes, parent links and sharing of expression nodes: trees are values, so aliasing between a node and the nodes of the map is not modelled; nor is the deep copying that guards against it.
- UNKNOWN operands, permute nodes, the operators `<>` and `min` of the optimiser (the printer has `min`), and OpenCL types beyond signedness and pointers; the common type of two operands is a parameter.
- Operators folded by Python but read by C differently (remainder, shifts, bit operations): their folding is a parameter, and the environments are those that agree with it. Results told by shape alone assume that it folds natural numbers to natural numbers.
- OptimiserValues.FlattenedComputes: for sums outside the guard the exact condition is proved for the cancelling loop alone (`Cancellation.CancelKeepsSumExactly`).
- Rounding: values are exact rationals, so C's truncating integer division and floating-point rounding are not modelled.
- Lexical details of the printed text, casts, pointer indexing with brackets and vector suffixes: the printer works on tokens, work-item functions are one token.
- Parsing of offset texts in loads: an offset is a number or none.
- Substitution.ReplacingSubstitutes: a variable with an entry of its own is looked for by its original (`Substitution.ReplacedExactly`).
- RegionPasses.IfExactly: the arm leads to the join only and from the condition only, as arms that are no branches do (`RegionShapes.IfIsShaped`); nothing leads back, as there are no loops.
- RegionPasses.IfElseExactly: the same for both arms (`RegionShapes.IfElseIsShaped`).
- How far the edits of a region graph came before a search that fails: no promise is made then.
- SignedSums.SumKeptExactly: a number of groups is not called a global size.
- Printing of regions, loops, breaks, returns, unrolled loops and the construction of the region graph from the control-flow graph.
- Register contents other than fields, signed terms and their sizes; the expression nodes they carry.
- File reading, command line, Graphviz, sympy, identifiers, singletons and the disassembler.
