# Verified models of a Java compiler's core data structures

The compiler translates a subset of Java to x86.  Between its passes it hands over a few
data structures that everything else relies on.  This project models them in Dafny and
proves what their designs and comments promise, for every run and every input.

* **Lexical scopes** (`ScopeSpec`, `Semantic`).  While a method is parsed, a live symbol
  table and an undo stack say which locals are in scope; each expression and declaration
  also records an immutable scope node.  Later passes have only the nodes.  `ScopeSpec`
  states both sides as functions of a run of parser events and proves that they agree at
  every point of every well-bracketed run; the class `Semantic` is the parser's state,
  updated in place and proved to follow these runs, so that a later lookup from a node
  recorded at some point returns the object that the table held there.
* **The def-use graph** (`DefUse`).  Child vectors and use sets point at each other.
  Every operation is proved against a function on graphs; for each one it is proved when
  the two-way invariant survives, with exact conditions for the operations that break it.
* **Instruction lists, iterators and the builder** (`InstList`, `InstFamily`, `Emission`,
  `IRBuilder`).  An intrusive doubly linked list refines a sequence; the builder is a cursor
  over it.
* **Postfix expressions and their evaluation** (`SourceRange`, `ExprSpec`, `ExprNodes`,
  `ExprEvaluator`).  A stack machine over a linked list whose callbacks may relink it
  while it is being read computes the direct recursion over the expression tree.
* **Types, layout and memory** (`Types`, `Layout`, `ObjectMemory`).  Types are uniqued in a
  context; sizes and offsets are computed in 32 bits, addresses in pointer width, and memory
  is allocated in bytes.
* **Instruction patterns** (`PatternTape`, `PatternMatch`, `PatternAgreement`,
  `PatternResult`, `PatternProvider`, `PatternSelection`).  Patterns are flattened to tapes,
  run against the selection graph, and sorted by kind; selection tries those kept for the
  kind of a node.

`Sequences` and `Wrappers` hold what several of these share.

Failed assertions of the program (which are always compiled in) are modelled as an
outcome: `None`, `false`, or a condition of an if-and-only-if.  Preconditions are what the
callers in the repository keep to, and memory is never reclaimed.

## What the proofs found

* A local is visible in its own initializer, and to nothing else before its declaration:
  its scope node is taken before the initializer is visited and it joins the table
  afterwards.  The agreement theorem has this as its one extra case; section 14.4.2 of
  the Java Language Specification, 2nd edition, gives a local the same scope.
* The comment on block iterators says that equal iterators are in the same block.  They
  are, except that the iterators of two empty blocks are all equal.
* `removeChild`, the indexed `addChild`, `destroy` and the clean-up of branch chains each
  keep the def-use invariant only under a condition, which is proved to be exact; for each
  there is a consistent graph that it breaks.  On such a broken graph `replaceAllUsesWith`
  can overwrite the wrong child.  The phi constructor inserts past the end of its children
  exactly for two or more incoming values.  Only this constructor calls the indexed
  `addChild`, and its only caller passes no values (passes/transform/MemToReg.cc:125), so
  neither goes wrong in this program.  `destroyed_` is never set, so the assertion against
  destroying twice never fires; destroying twice happens to be harmless.
* Setting the insertion point to a block does not set it to the beginning, as its comment
  says, but behind the first instruction, unless the block is empty.  The code generator
  does this for new blocks only.
* The range stack of an evaluator grows by one with every evaluation; this never affects
  a result.  An evaluation that a callback ends by throwing leaves the nodes not yet read
  locked: until they are evaluated again, an attempt to relink one of them fails.
* Sizes and offsets of types are in bits, memory is allocated and addressed in bytes, and
  address computations add the bits to the pointer as they are.  A computed address is the
  right one only for what nothing precedes; the second field of an array header lies outside
  the header, and of `n` array elements only the first eighth is addressed inside the array.
  Even that holds only while the number of their bytes is below 2^32: it is computed in 32
  bits, so 2^30 integers get no bytes at all, as does a boolean.  Different parts are still
  addressed apart.
* `isSizeBounded` does not say that a type has a size: an array of unknown length inside
  an array of known length is accepted as an element of a struct.
* After a nested group the pattern matcher continues behind the position of the
  surrounding node in its own parent, not behind the position of the group.  For patterns
  that can match at all the two agree exactly when the pattern is aligned, which all patterns
  of the x86 target are.
* A definition is filed under the first operand of its first pattern, whatever the others ask
  for.  Selection overlooks no match exactly when all patterns that can match ask for that
  kind, as those of the x86 target do.

## Model

| member | source | states |
|---|---|---|
| ScopeSpec.CanViewAlongPath | lib/ast/ScopeID.cc:24-36 | the recursive test sees a node exactly when it is declared in an enclosing scope, no later than the way down to the viewer |
| ScopeSpec.CanViewIsPreorder | lib/ast/ScopeID.cc:24-36 | visibility is reflexive and transitive on every scope tree; mutual visibility is exactly being siblings at one position |
| ScopeSpec.CanViewIsAntisymmetric | lib/ast/ScopeID.cc:24-36 | with distinct sibling positions visibility is a partial order |
| ScopeSpec.FieldVisibilityIsDeclarationOrder | include/semantic/Semantic.h:144-153 | on the chain of field scopes visibility is exactly declaration order |
| ScopeSpec.StepKeepsInv | include/semantic/Semantic.h:82-153 | every scope operation the protocol allows keeps the invariant relating nodes, table, stack and open scopes |
| ScopeSpec.RunSucceeds | include/semantic/Semantic.h:96-140 | a well-bracketed run never fails an assertion, keeps the invariant and has as many open scopes as its depth |
| ScopeSpec.VisibilityAgreesWithLiveStack | include/semantic/Semantic.h:96-142 | for every use in every run and every declaration of the run, earlier or later, the recorded scope sees it exactly when it is on the live stack at the use or the use is in its initializer |
| ScopeSpec.SeenInOwnInitializer | include/semantic/Semantic.h:96-142 | there is such a use: right after a new node is taken, it sees the declaration that is added for this node only afterwards |
| ScopeSpec.LateLookupAgreesWithTable | lib/semantic/ExprResolver.cc:62-91 | at most one declaration of a name is visible from a recorded scope, and the late lookup finds what the live table held then |
| ScopeSpec.MatchedExitRestores | lib/parsetree/VisitStatement.cc:15-24 | an exit that matches an enter restores the table, the stack and the open scopes, whatever happened between |
| ScopeSpec.TableHoldsOpenNames | include/semantic/Semantic.h:96-130 | after every run a name is in the table exactly when it was added in a scope that is still open, and then with the declaration of the first such addition |
| ScopeSpec.DeclsAreAccepted | include/semantic/Semantic.h:96-103 | the declarations of a run are exactly those added while their name was not in scope, each with the scope node current then |
| ScopeSpec.LiveStructures | include/semantic/Semantic.h:96-130 | at every point the table's keys are the distinct names on the stack, and the stack is the enclosing part of all declarations in their order |
| Semantic.CanViewByIndex | include/ast/AstNode.h:349-391 | visibility by node identity is visibility by index, as nodes are fresh and know their position |
| Semantic.ScopeID.Next | include/ast/AstNode.h:361-364 | a fresh node under the given parent, one position later |
| Semantic.Semantic.ResetLexicalLocalScope | include/semantic/Semantic.h:82-87 | starts a new run with empty tables |
| Semantic.Semantic.AddLexicalLocal | include/semantic/Semantic.h:96-103 | false exactly when the name is in scope, and then nothing changes; otherwise the table maps the name to the declaration, and both lists are extended by it; the fields follow the extended run |
| Semantic.Semantic.EnterLexicalScope | include/semantic/Semantic.h:110-114 | a new child of the current node becomes current, the size of the stack is returned, and the tables stay; the fields follow the extended run |
| Semantic.Semantic.ExitLexicalScope | include/semantic/Semantic.h:123-130 | the stack is cut back to the size, exactly the names cut off leave the table, and a new sibling of the closed scope becomes current; the fields follow the extended run |
| Semantic.Semantic.NextScopeID | include/semantic/Semantic.h:137-140 | a new sibling of the current node becomes current and is returned, and the tables stay; the fields follow the extended run |
| Semantic.Semantic.NextFieldScopeID | include/semantic/Semantic.h:144-147 | the field scopes stay the chain on which visibility is declaration order |
| Semantic.LookupNamedDecl | lib/semantic/ExprResolver.cc:62-91 | returns the first declaration with the name that the scope can view, or the first one with the name when there is no scope to check, and null exactly when there is none |
| Semantic.LookupFromPoint | lib/semantic/ExprResolver.cc:62-91 | from the node that was current at an earlier point of the run, the search over all later declarations returns the very object the table held for the name at that point, or inside its own initializer the declaration added for that node, and nothing else |
| DefUse.Node.AddChild | include/utils/User.h:113-117 | the new graph is the old one with the child appended and its use recorded |
| DefUse.Node.InsertChildAt | include/utils/User.h:118-122 | the new graph has the child inserted; shifted children keep their recorded indices |
| DefUse.Node.RemoveChildAt | include/utils/User.h:106-110 | the new graph has the child and its use removed; shifted children keep their recorded indices |
| DefUse.Node.ReplaceChildAt | include/utils/User.h:123-129 | the new graph has the slot and the two use sets changed, nothing else |
| DefUse.Node.Destroy | include/utils/User.h:130-137 | the loop releases, for each non-null child, the use at the number of non-null children before it |
| DefUse.Node.ClearChainsFrom | include/mc/InstSelectNode.h:184-188 | on any graph, stale uses included, the chains and the uses recorded at them are gone, all else is unchanged |
| DefUse.ReleaseMeans | include/mc/InstSelectNode.h:184-188 | on every graph the first children stay, filled up with null, and each dropped child has released the use at its index |
| DefUse.ReleaseReleasesIff | include/mc/InstSelectNode.h:184-188 | dropping the chains releases every use recorded for them exactly when none of these uses is stale |
| DefUse.Node.ReplaceAllUsesWith | include/utils/User.h:145-151 | on any graph whose recorded uses stand for some child, in any order of the uses: the slots of the recorded uses hold the new value, and what they held has released the use |
| DefUse.ReplaceRecordedMeans | include/utils/User.h:145-151 | on every graph whose recorded uses stand for some child, slot by slot and use by use: what changes are the recorded slots, what they held, and the new value |
| DefUse.ReplaceRedirectsIff | include/utils/User.h:145-151 | on such a graph exactly the slots that held the node are redirected exactly when each recorded use stands for such a slot, or for one that holds the new value already, and each such slot is recorded |
| DefUse.ReplaceIsReplaceAll | include/utils/User.h:145-151 | on a consistent graph this is redirecting every slot that held the node, and moving its uses |
| DefUse.Node.PruneChains | passes/mc/MIRBuilder.cc:155-160 | the clean-up loop follows the function whose consistency is characterised below |
| DefUse.ReplaceAllMeans | include/utils/User.h:145-151 | on a consistent graph every slot that held the node holds the new value and no other slot changed; the node has no uses, and the new value has the disjoint union of both use sets; for the node itself nothing changes |
| DefUse.AppendMeans | include/utils/User.h:113-117 | on every graph the node has its old children and the new one, whose use is recorded at its index; nothing else changes |
| DefUse.InsertMeans | include/utils/User.h:118-122 | on every graph the children from the index on move up by one, and only the new use is recorded |
| DefUse.RemoveMeans | include/utils/User.h:106-110 | on every graph the children behind the index move down by one, and only that use is released |
| DefUse.ReplaceMeans | include/utils/User.h:123-129 | on every graph one slot changes; its old child releases the use and the new one has it |
| DefUse.InsertKeepsIff | include/utils/User.h:118-122 | inserting keeps the invariant exactly when every shifted child is null |
| DefUse.RemoveKeepsIff | include/utils/User.h:106-110 | removing keeps the invariant exactly when every shifted child is null |
| DefUse.DestroyMeans | include/utils/User.h:130-137 | on every graph, for each child exactly the use at the number of non-null children before it is released at that child |
| DefUse.DestroyReleasesIff | include/utils/User.h:130-137 | destroying releases every use held by the node exactly when no null child precedes a non-null one |
| DefUse.DestroyKeepsRestIff | include/utils/User.h:130-137 | then and only then the rest of the graph stays consistent |
| DefUse.DestroyIsIdempotent | include/utils/User.h:130-142 | destroying twice, which the unset flag allows, changes nothing more |
| DefUse.StepKeepsIff | include/utils/User.h:106-151 | one operation, destroying and pruning included, keeps the living nodes consistent exactly when it shifts no child, prunes only a tail, and destroys no node with a null child before another |
| DefUse.RunKeepsIff | include/utils/User.h:106-151 | a run of operations keeps the living nodes consistent throughout exactly when every step does |
| DefUse.RemoveBreaks | include/utils/User.h:106-110 | a consistent graph that removing a child breaks |
| DefUse.InsertBreaks | include/utils/User.h:118-122 | a consistent graph that inserting a child breaks |
| DefUse.DestroyForgets | include/utils/User.h:130-137 | a consistent graph in which destroying a node leaves a use by it recorded |
| DefUse.PruneBreaks | passes/mc/MIRBuilder.cc:155-160 | a consistent graph, with a shared chain before an unshared one, that the clean-up loop breaks |
| DefUse.StaleUseRedirectsWrong | include/utils/User.h:145-151 | after a removal, replacing all uses of one child overwrites another |
| DefUse.RemoveInMemory | include/utils/User.h:106-117 | the first of these graphs, built and broken by the methods |
| DefUse.PruneKeepsIff | passes/mc/MIRBuilder.cc:155-160 | pruning branch chains leaves a consistent graph exactly when, once the last chains with another user are gone, no remaining chain has another user |
| DefUse.PruneMeans | passes/mc/MIRBuilder.cc:155-160 | on every graph, going down, a chain is kept exactly when no other use of it is left; the dropped ones have released their uses and the kept ones stay in order |
| DefUse.PhiNeedsAtMostOneValue | lib/tir/Instructions.cc:288-302 | the phi constructor stays within its child vector exactly for at most one incoming value |
| InstList.Instruction.InsertBefore | include/tir/Instructions.h:109-122 | the block's list is the old one with the instruction inserted at the index |
| InstList.Instruction.InsertAfter | include/tir/Instructions.h:124-137 | the block's list is the old one with the instruction inserted behind the index |
| InstList.Instruction.EraseFromParent | include/tir/Instructions.h:161-180 | the block's list is the old one without exactly this instruction, which ends unlinked but keeps its parent |
| InstList.BasicBlock.AppendAfterEnd | lib/tir/BasicBlock.cc:53-61 | the instruction is the new last one; into an empty block this needs, exactly, an unlinked instruction |
| InstList.BasicBlock.InsertBeforeBegin | lib/tir/BasicBlock.cc:63-71 | the instruction is the new first one, with the same exact condition |
| InstList.Spliced | include/tir/Instructions.h:109-137 | inserting into a list of links gives the list with the element inserted |
| InstList.Unspliced | include/tir/Instructions.h:161-178 | unlinking from a list of links gives the list without the element |
| InstList.InsertedAt | include/tir/Instructions.h:109-137 | after an insertion the element is at its position, and all others are as before, those behind it one later |
| InstList.WithoutElement | include/tir/Instructions.h:161-178 | after an erasure the element is gone, and all others are as before, those behind it one earlier |
| InstList.MergeInto | passes/transform/SimplifyCFG.cc:61-68 | moving a successor's instructions conserves them: the block holds its own without the terminator, then the others in order, and the successor none |
| InstList.ListsAreDisjoint | include/tir/Instructions.h:138-143 | an instruction is in one block's list at a time |
| InstFamily.ChangedAt | include/tir/Instructions.h:109-180 | the list of the block after each of the five operations, by position |
| InstFamily.StepConserves | include/tir/Instructions.h:109-180 | over any family of blocks, an insertion or an erasure that keeps the instruction leaves every instruction in one place, and loses and gains none |
| InstFamily.RunConserves | include/tir/Instructions.h:109-180 | so does every run of insertions, erasures and re-insertions |
| InstFamily.Perform | include/tir/Instructions.h:109-180 | in memory the operation changes the list of its block as specified, and no other block |
| Emission.EntryBlockLayout | include/tir/IRBuilder.h:203-214 | on a block that starts empty any interleaving of builder inserts and allocas gives the allocas in reverse, then the builder's instructions in order |
| Emission.BuilderLayout | include/tir/IRBuilder.h:203-214 | with the cursor inside a block, the builder's instructions appear in order at the cursor, and nothing else moves |
| IRBuilder.StepsMoveByOne | lib/tir/BasicBlock.cc:21-51 | increment and decrement move by one position and stop at the points before and after the list |
| IRBuilder.NeighbourIterators | include/tir/Instructions.h:145-155 | an instruction's own, next and previous iterators are the positions of itself and its neighbours |
| IRBuilder.EqualIsSamePosition | include/tir/BasicBlock.h:27-30 | within a block equal iterators are the same position |
| IRBuilder.EqualAcrossBlocks | include/tir/BasicBlock.h:85-86 | iterators of different blocks are equal exactly when both blocks are empty |
| IRBuilder.Walk | include/tir/BasicBlock.h:52-55 | walking from begin to end visits each instruction once, in order |
| IRBuilder.IRBuilder.Insert | include/tir/IRBuilder.h:203-214 | the block follows the emission of one instruction at the cursor, and the cursor moves onto it |
| IRBuilder.EmitsBehindPoint | include/tir/IRBuilder.h:15-29 | from any insertion point the next instruction goes behind that position, or to the end from the position after the last |
| IRBuilder.InsertIn | include/tir/IRBuilder.h:31-36 | with the insertion point set to a block, the next instruction goes behind the first one of the block |
| IRBuilder.BeginIsFrontIff | include/tir/IRBuilder.h:31-36 | this is the beginning of the block exactly when the block is empty |
| IRBuilder.CreateAlloca | include/tir/Constant.h:231-236 | the block follows the emission of one instruction at its front |
| IRBuilder.EmitEntryBlock | lib/codegen/CGFunction.cc:71-85 | for every list of locals, and every sequence of builder inserts and short-circuit expressions, the entry block consists of the allocas of the expressions, last one first, those of the locals, last one first, then for each parameter in order the store of the next argument to that local, then the inserts in order, and nothing else |
| IRBuilder.AllocaRolesAt | include/tir/Constant.h:231-236 | there is one alloca for each of `n` locals, that of local `i` at position `n - 1 - i` |
| IRBuilder.BodyRolesAt | lib/codegen/CGExpr.cc:311-339 | the alloca of short-circuit expression `i` of `n` is at position `n - 1 - i`, and insert `i` is number `i` of the body |
| IRBuilder.StoreRolesAt | lib/codegen/CGFunction.cc:80-83 | there is one store for each parameter, and the stores pair the arguments in order with the locals that are parameters |
| SourceRange.MergeLaws | include/diagnostics/Location.h:86-101 | merging is associative, and commutative exactly when one range is valid or both are equal |
| SourceRange.MergeStaysInFile | include/diagnostics/Location.h:86-101 | ranges within one file merge to a range within it, at both ends; an invalid range gives way to the other |
| SourceRange.MergeIsBox | include/diagnostics/Location.h:86-101 | merging the bounding boxes of two lists gives the bounding box of both |
| ExprSpec.PostfixIsInjective | include/ast/ExprEvaluator.h:60-108 | the postfix form determines the tree |
| ExprSpec.ParsesToTreeIff | include/ast/ExprEvaluator.h:60-108 | a list of nodes reduces to one tree exactly when it is the postfix form of one |
| ExprSpec.StepDelivers | include/ast/ExprEvaluator.h:71-114 | an operator takes its operands from the top of the stack and hands them to its callback in source order, the arguments of a call last one first, with the range of each, and leaves the value there |
| ExprSpec.DenoteDelivers | include/ast/ExprEvaluator.h:71-114 | in the same order and with the same ranges the meanings of the operands make up the meaning of the tree |
| ExprSpec.LeftBeforeRight | include/ast/ExprEvaluator.h:74-82 | an operator with two operands is applied to its left one and then its right one, which stand in this order before it |
| ExprSpec.RunHolds | include/ast/ExprEvaluator.h:60-108 | at every point the two stacks hold the values and boxes of the trees read so far, above what was there |
| ExprSpec.EvaluatePostfix | include/ast/ExprEvaluator.h:43-114 | the stack machine on the postfix form of a tree computes the direct recursion over the tree |
| ExprSpec.EvaluatesIff | include/ast/ExprEvaluator.h:43-114 | an evaluation succeeds exactly on the postfix forms of trees whose values lie in one file |
| ExprSpec.LeftoversDoNotMatter | include/ast/ExprEvaluator.h:52-53 | what earlier evaluations left on the stacks affects no result, and the ranges are still below afterwards |
| ExprSpec.DenoteBox | include/ast/ExprEvaluator.h:141-149 | the range left for a tree is the bounding box of all its values |
| ExprSpec.DenoteAllBoxes | include/ast/ExprEvaluator.h:127-131 | during a callback the range of each argument is the bounding box of that operand's values |
| ExprNodes.ExprNodeList.PushBack | include/ast/ExprNode.h:72-84 | the list of distinct nodes is extended by the node; null changes nothing |
| ExprNodes.ExprNodeList.Concat | include/ast/ExprNode.h:108-113 | the list is the concatenation with a disjoint one, which ends empty |
| ExprNodes.ExprNodeList.ConcatMoved | include/ast/ExprNode.h:90-101 | the list is the concatenation with a disjoint one; the program's own invariants hold |
| ExprNodes.ExprNodeList.Walk | include/ast/ExprNode.h:119-124 | following the links yields the nodes in order |
| ExprEvaluator.ExprEvaluator.Operands | include/ast/ExprEvaluator.h:71-104 | pops one operand for a unary operator, at least the callee for a call, two otherwise; delivers them in source order, of a call the callee and then the arguments last one first |
| ExprEvaluator.ExprEvaluator.ArgLocation | include/ast/ExprEvaluator.h:127-131 | fails exactly on a bad index, and otherwise reads the range of that argument |
| ExprEvaluator.ExprEvaluator.MergeLocations | include/ast/ExprEvaluator.h:141-149 | the loop merges the topmost ranges and fails exactly when two lie in different files |
| ExprEvaluator.ExprEvaluator.EvaluateList | include/ast/ExprEvaluator.h:43-114 | for every way the callbacks relink nodes, evaluation fails exactly when a callback touches a node still locked or the original list does not evaluate; otherwise it reads the original nodes in order, leaves every node unlocked and linked as last requested, and clears its operands |
| ExprEvaluator.ExprEvaluator.EvaluateUntil | passes/SemanticPasses.cc:152-157 | when the callback of a node throws, for every way the callbacks so far relink nodes, the nodes up to that one are unlocked and linked as last requested, all later ones stay locked and linked as they were, and the stacks are those of the run up to that callback |
| ExprSpec.EveryCallbackIsReached | include/ast/ExprEvaluator.h:60-108 | in an evaluation that would succeed every callback is reached |
| ExprEvaluator.LastRequestWins | include/ast/ExprNode.h:31-34 | a node is linked as the last request that names it asks |
| ExprEvaluator.UnnamedStays | include/ast/ExprNode.h:31-34 | a node that no request names stays linked as it was |
| ExprEvaluator.StepKeepsHeights | include/ast/ExprEvaluator.h:62-108 | at step boundaries the range stack is higher than the operand stack by a constant |
| Layout.SizeIsExactModulo | include/tir/Type.h:232-299 | the 32-bit size is the exact one modulo 2^32, and exists exactly when all types inside have a size |
| Layout.ExactMeans | include/tir/Type.h:232-299 | the exact size of a leaf is the one it is made with, of a struct the sum over its elements, of an array its length times that of its element |
| Layout.OffsetIsExactModulo | include/tir/Type.h:303-309 | the 32-bit offset of an element is the exact one modulo 2^32 |
| Layout.SizedIffBoundedInside | include/tir/Type.h:228-299 | a type has a size exactly when every type inside it counts as bounded, wherever an access path leads |
| Types.AcceptsUnsizedElement | include/tir/Type.h:250-257 | a context accepts a struct whose element counts as bounded and which has no size |
| Layout.OffsetsAreExactIff | include/tir/Type.h:293-309 | all offsets of a struct and its size, in bits, are exact exactly when the exact size is below 2^32 |
| Layout.AddressIsComputed | passes/mc/MIRBuilder.cc:425-458 | the address computed for an access path is the base plus the sum of its 32-bit steps, modulo the pointer width |
| Layout.ComputedIsExactIff | passes/mc/MIRBuilder.cc:433-454 | that sum is the exact number of bits before the target exactly when no step overflows 32 bits |
| Layout.ComputedIsExactModulo | passes/mc/MIRBuilder.cc:433-454 | what is added along any path is the number of bits before the target modulo 2^32, overflows included |
| Layout.Inside | include/tir/Type.h:293-309 | the bits an access path leads to lie among the bits of the whole |
| Layout.ApartIsDisjoint | include/tir/Type.h:293-309 | the bits two diverging paths lead to do not overlap |
| Layout.LeavesTile | include/tir/Type.h:232-309 | every bit of a type is in exactly one leaf, and no leaf has a bit outside |
| ObjectMemory.BytesHoldIff | passes/mc/MIRBuilder.cc:184 | the bytes allocated for an object hold all its bits exactly when its exact size plus one is below 2^32 and it is a multiple of eight or one less |
| ObjectMemory.BytesMean | passes/mc/MIRBuilder.cc:184 | the bytes allocated are those of one bit more than the size, rounded down |
| ObjectMemory.NoBytesIff | lib/codegen/CGExpr.cc:482 | an object gets no bytes exactly when its 32-bit size is below seven, as that of a boolean, or the largest there is |
| ObjectMemory.AddressCountsBits | passes/mc/MIRBuilder.cc:433-454 | without overflow the computed address is the base, in bytes, plus the number of bits before the target |
| ObjectMemory.AddressIsByteAddressIff | passes/mc/MIRBuilder.cc:433-454 | for every shape and path without overflow the computed address is that of the byte where the target begins exactly when each index skips only elements without a bit |
| ObjectMemory.ElementInsideIff | lib/codegen/CGExpr.cc:478-519 | element `k` of an array of `n` elements of `b` whole bytes is addressed inside the memory allocated for them exactly when `(8 k + 1) b` is at most `n b` modulo 2^32 |
| ObjectMemory.FirstEighthIsInside | lib/codegen/CGExpr.cc:478-519 | while `n b` is below 2^32, this is exactly when `8 k < n` |
| ObjectMemory.ManyIntegersGetNoBytes | lib/codegen/CGExpr.cc:478-483 | an array of 2^30 integers gets no bytes, and no element of it is addressed inside |
| ObjectMemory.HeaderIsAddressedOutside | lib/codegen/CodeGen.cc:17-21 | the header of an array gets twelve bytes, and its second field is addressed at byte 32 |
| ObjectMemory.LeavesAreAddressedApart | passes/mc/MIRBuilder.cc:433-454 | inside the object or not, the bytes addressed for different leaves do not overlap |
| Types.Type.SizeInBits | include/tir/Type.h:232-299 | the recursive size computation gives the 32-bit size, or fails, as specified |
| Types.Type.SumOfSizes | include/tir/Type.h:293-309 | the summing loop gives the specified offset |
| Types.Type.IndexedType | lib/tir/Type.cc:71-86 | the walk along indices ends at the type the path leads to |
| Types.Context.GetInteger | include/tir/Type.h:115-128 | returns the type of this shape; the table grows by it exactly when no entry was made of the same parts |
| Types.Context.GetFunction | include/tir/Type.h:150-183 | the same for function types |
| Types.Context.GetArray | include/tir/Type.h:208-226 | the same for array types |
| Types.Context.GetStruct | include/tir/Type.h:250-283 | the same for struct types; fails exactly on a null or an unbounded array element |
| Types.SameShapeIsSame | include/tir/Type.h:15-20 | after any sequence of gets two types of a context have the same recursive structure exactly when they are the same object |
| Types.WithGrows | include/tir/Type.h:30-33 | a new type joins the context and no earlier one leaves it |
| PatternTape.Pat.FromChildren | include/mc/Patterns.h:224-241 | the loops write exactly the tape of the group, and succeed exactly when it fits the array |
| PatternTape.TapeOfGroup | include/mc/Patterns.h:224-241 | the tape of a group is, child after child, the tape of the child, between Push and Pop if it has more than one operand |
| PatternTape.DecodeTape | include/mc/Patterns.h:212-241 | every tape is balanced and decodes to the pattern without empty and single-operand groups |
| PatternTape.DecodesIffBalanced | include/mc/Patterns.h:228-238 | a tape decodes exactly when every Pop closes a Push and none stays open |
| PatternTape.FlatDecode | include/mc/Patterns.h:212-241 | encoding what was decoded gives the same tape |
| PatternTape.SameTapeIff | include/mc/Patterns.h:212-241 | two patterns have the same tape exactly when they differ in needless groups only |
| PatternTape.TapesOfPatterns | include/mc/Patterns.h:212-241 | the tapes of patterns are exactly the balanced ones whose groups are longer than one operand |
| PatternMatch.VisitsAreRightIff | lib/mc/Patterns.cc:124-139 | the matcher visits the places the pattern's shape asks for exactly when every group that is not last in its own group is at the same position as the group around it |
| PatternMatch.Matches | lib/mc/Patterns.cc:123-193 | the loop with its stack performs exactly the visits of the tape, threading the bound operands and the covered nodes |
| PatternMatch.MatchesDefinition | lib/mc/Patterns.cc:105-193 | a definition without output matches only a node without type, one with a register output only a node whose type the register class holds; in these cases, and for other outputs, the result is that of the tape |
| PatternResult.CoversGroups | lib/mc/Patterns.cc:130-139 | a match covers, besides the root, exactly the nodes at the places of the groups it enters, in their order |
| PatternResult.BindsOperands | lib/mc/Patterns.cc:146-185 | a match binds what its operands bind one after the other, each at the place it is visited at and with what those before it have bound |
| PatternMatch.MatchIsCheckAll | lib/mc/Patterns.cc:124-191 | matching a pattern recursively is checking the places its shape asks for |
| PatternMatch.AlignedIsMatched | lib/mc/Patterns.cc:105-193 | running the tape of an aligned pattern is matching the pattern |
| PatternMatch.MisalignedComparesAgain | lib/mc/Patterns.cc:135-140 | a pattern for the kind of the node, with a group behind an operand and before another, never matches a node whose second child is refused for the last operand |
| PatternMatch.MisalignedGoesWrong | lib/mc/Patterns.cc:135-140 | a pattern and a node of its kind that match by the pattern's shape but not by the matcher |
| PatternAgreement.AgreesIff | lib/mc/Patterns.cc:123-193 | the matcher and the recursive meaning of a pattern give the same result on all nodes and under all checks exactly when the pattern is aligned or some group of it asks for two kinds |
| PatternAgreement.MatchableIff | lib/mc/Patterns.cc:141-145 | some node matches a pattern exactly when no group of it asks for two kinds |
| PatternMatch.ShippedPatternsAreAligned | lib/target/x86/InstSelect.cc:44-106 | all shapes of patterns of the x86 target are aligned |
| PatternProvider.BeforeMeans | lib/target/x86/InstSelect.cc:109-120 | a definition comes first exactly when it has more inputs, or as many and fewer registers among them |
| PatternProvider.DagKindIs | include/mc/Patterns.h:327-329 | a definition is filed under the kind of node, or else the operand index, that its first pattern starts with, and under zero for a group or without a pattern |
| PatternProvider.ComparesStrictly | lib/target/x86/InstSelect.cc:109-120 | the comparison is a strict weak order, as sorting needs |
| PatternProvider.PatternProvider.constructor | include/mc/Patterns.h:485-498 | each kind, read from the first tape of a definition, gets exactly its definitions; no later one has more inputs, or as many and fewer registers; all lists together are a permutation of the definitions |
| PatternProvider.ListsPartition | include/mc/Patterns.h:488-491 | the lists of all kinds together hold every definition as often as it is defined |
| PatternProvider.ListIsOfKind | include/mc/Patterns.h:488-498 | the list of a kind holds the definitions of that kind and no others |
| PatternSelection.OnlyItsKindIff | include/mc/Patterns.h:327-329 | the matcher accepts, for the aligned patterns of a definition, only nodes of the kind that the definition is filed under exactly when each pattern asks for that kind or never matches |
| PatternSelection.TargetDefinitionIsFiledRight | lib/target/x86/InstSelect.cc:44-106 | a definition built from one pattern, and for a commuting operation a second, that start with one kind is filed under it and rightly |
| PatternSelection.SecondKindIsMissed | include/mc/Patterns.h:327-329 | a definition with patterns for two kinds accepts nodes under whose kind it is not filed |
| PatternSelection.Select | passes/mc/InstSelect.cc:94-106 | with all definitions filed right, selection finds a definition exactly when one of the target's definitions matches the node, with its first pattern that matches; no other matching definition has more inputs, or as many and fewer registers, and the register class of its output holds the type of the node |

## Left out

- Semantic.Semantic.ExitLexicalScope: names are erased whole; the program erases by C string, which differs only for names with an embedded NUL character.
- Semantic.LookupNamedDecl: covers local declarations; inherited members of classes, access modifiers and ambiguity between members are not part of this model.
- ScopeSpec.RunSucceeds: positions are unbounded integers, so a method with more than 2^31 scope nodes is outside the model.
- DefUse.Node.ReplaceAllUsesWith: the order in which the hash set of uses is copied is any order.
- InstList.Instruction.EraseFromParent: links only; releasing the operands when the instruction is not kept is `DefUse.Node.Destroy`, and the two are not combined in one class.
- InstList.MergeInto: the replacement of the successor by the block in its users, and the removal of the successor from the function, are not part of this model.
- IRBuilder.EmitEntryBlock: of instructions only what they were created for is modelled, not operands, names and control flow; what a body puts into other blocks is not.
- ExprEvaluator.ExprEvaluator.EvaluateList: a callback is a pure value plus any relinking, or throws (`EvaluateUntil`); callbacks that evaluate on the same evaluator again, and subclasses that refuse a value through validate or validatePop, are not modelled.
- Types.Context.GetFunction: lists of more than 2^32 - 2 parameter types, whose number would be truncated, are excluded; the same holds for the elements of a struct.
- Types.Type.IndexedType: an index past the elements of a struct, which reads outside the array, counts as a failure, as does an index that is no constant.
- Layout.Address: the pointer width is the 64 bits of the only target; array indices are the values at run time, taken as not negative.
- PatternTape.Pat.FromChildren: a Push or Pop that does not fit the array counts as a failure, as it is one when the pattern is evaluated at compile time.
- PatternMatch.Matches: the check of one operand against one node (register classes, immediates, fragments, operands bound before) is an arbitrary function of what is bound so far, and chains are not operands.
- ObjectMemory.BytesHoldIff: the bytes of an object before stack slots are rounded up to the alignment of the stack; their number is not truncated to 16 bits as in a stack slot.
- PatternSelection.Select: building the machine instruction for the chosen pattern, and the work list of nodes to select, are not part of this model; nor is the limit on the number of patterns of a definition, which is checked at compile time.
- PatternProvider.PatternProvider.constructor: which of two equally ranked definitions comes first is not promised.
- Values of integer constants, masks, live ranges and the instruction order of selection nodes: each is settled by a short reading.
- Data flow, control flow graphs, class hierarchies, register allocation, code generation and the optimisation passes, apart from the loops cited above.
- Parsing, source files, diagnostics, all printing and dumping, and memory allocation.
