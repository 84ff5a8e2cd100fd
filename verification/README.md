# FeatMaker: the core of the symbolic executor and its test selection

FeatMaker drives a modified KLEE and chooses search features from the test cases it produced. This project
models the parts of the two whose correctness is not visible from one body, and proves what each promises.

All parts share one semantics. `Exprs.Eval` gives an expression (fixed-width bit vectors, reads of byte arrays
through update lists) its value under an assignment of contents to arrays. On it stand:

- **Expressions** (`Bits`, `Exprs`, `Create`, `CreateSound`, `CreateTheorems`, `CreateShape`, `ArrayReads`,
  `Visitor`, `Evaluator`, `Builder`): the canonicalising constructors, reads of update lists, the rewriting
  driver, the evaluator, the folding builder's sums and differences.
- **Paths** (`Constraints`, `PathPool`, `Executor.dfy`, `StateMerge`): constraint sets; fork, branch, switch and
  termination as steps that split the input space; merging two states into one.
- **Memory** (`ObjectView`, `ObjectOps`, `ObjectWords`, `ObjectState.dfy`, `AddressSpace.dfy`, `Resolve.dfy`,
  `MemoryManager.dfy`): an object's caches and update list against a plain array of bytes, copy on write
  against private memory, pointer resolution against a scan of all objects, the deterministic allocator.
- **Bookkeeping** (`MergeProtocol`, `PTree.dfy`, `CallPath.dfy`): states that wait for each other, the process
  tree and the random descent, call paths and their summary.
- **Graphs** (`StatsTracker.dfy`, `LetLevels`, `SelectChain`, `SetCover`): distances to uncovered code, levels of
  let bindings, select chains for constant arrays, the greedy cover of branches.

Code that changes state is a class or a loop here as well; each such method is tied to a function of the old
state or states its result outright, and the lemmas say what that means. The solver is a predicate that is
right about all assignments. The time, random numbers and heap addresses are parameters.

## Findings

Where the code falls short of what it promises, the model keeps the code. Each entry names an input that shows
it and the exact condition under which the promise holds.

- **Merging searcher.** It tells the base searcher nothing when the current state is paused, and otherwise of every new
  state, waiting or not (klee/lib/Core/Searcher.h:244-253). So an update comes out in step exactly under a condition on
  the state before it (`MergeProtocol.Executor.UpdateStates`): if the current state is paused, nothing was removed and
  every new state waits or is scheduled already; if it is not, no new state goes on waiting. Those that go on waiting
  are the ones in close merge while nothing was removed (`MergeProtocol.Executor.LingersExact`); what is removed may
  let others go. A close fails exactly if a new state is merged: it is deleted at once and leaves a handler a second
  time, which is the assertion at klee/lib/Core/MergeHandler.cpp:74-79 (`MergeProtocol.Executor.CloseMerge`). Three runs
  from the start fork and close in one step, as the call of a symbolic function pointer can
  (klee/lib/Core/Executor.cpp:1986-2021). In `RunStuck` the old state closes, and the new one is never scheduled. In
  `RunWaiting` the new one closes: the base searcher is asked to take out a state it does not have (`misused`; several
  assert that this does not happen, klee/lib/Core/Searcher.cpp:96) and in the end schedules a state that waits. In
  `RunRefused` both close: the assertion fails exactly if the second can be merged into the first.
- **Copy on write.** The epoch is an unsigned 32-bit number. Isolation of all spaces (no state is younger than a space
  that has it, one that two spaces have is older than both, and different states have no memory in common) is kept by
  a copy exactly if the epoch does not wrap around, or nothing is shared (`AddressSpaces.AddressSpace.Copy`). Its first
  part is the invariant stated at klee/lib/Core/AddressSpace.h:61-64; the second is what makes a state that has the
  epoch of a space that space's own. The wrap costs the second as well: after 2^32 copies a space takes a state shared
  with the first copy for its own (`AddressSpaces.TakenForOwn`), and a write to such a state is seen in the other space
  (`AddressSpaces.SharedWrite`); `AddressSpaces.WriteSeen` is the run from the start.
- **Resolution.** The header promises no more objects than the cap (klee/lib/Core/AddressSpace.h:89-95). A cap of
  one is never looked at when the first object is found, so two can come back. It is kept for a cap of one
  exactly if the pointer may lie in at most one object (`Resolution.Resolve`, `Resolution.CapOfOneFails`).
- **Distance to uncovered code.** A call reads the slot of the function it calls, which no step fills: slots of
  functions and of instructions are numbered apart (klee/lib/Module/InstructionInfoTable.cpp:183-188). So uncovered
  code inside a function that is called does not count: in `Distances.CalleeIgnored` a call is two away from the only
  uncovered instruction and has no distance. The slots are the distances that do count it exactly if, wherever a
  function called has uncovered code ahead at some distance, a way past the call leads to uncovered code at most one
  further (`Distances.DeepExact`).
- **Select chains.** Both ends of a run are compared as signed numbers. The chain gives every element exactly if no
  run of two or more elements, of a value other than the least, holds the last nonnegative index
  (`SelectChain.LossExact`). With the 32-bit index of every array made here, and the default ratio of 1.0, that happens
  from 2^31 elements on: `SelectChain.LossExample`.
- **Call path summary.** The root's summary is not reset, so it grows with every call of the function; every other node
  is exact (`CallPaths.CallPathManager.GetSummaryStatistics`). In `CallPaths.RootGrows` the second call says twice what
  the first did.
- **Builder comments.** The comments at klee/lib/Expr/ExprBuilder.cpp:798 and 851 state other rules than the code
  below them has, and those rules would be wrong; the model follows the code, which is right.

## Model

| member | source | states |
|---|---|---|
| CreateTheorems.BinarySound | klee/lib/Expr/Expr.cpp:738-1212 | for every binary operator, all operands, every width and every assignment, the expression the constructor builds (reassociated, folded or negated) has the value of the plain operator node |
| CreateTheorems.SelectSound | klee/lib/Expr/Expr.cpp:587-616 | the select constructor, And and Or forms included, chooses the side the condition says |
| CreateTheorems.ConcatSound | klee/lib/Expr/Expr.cpp:618-640 | the concat constructor, which joins adjacent extracts, has the bits of both operands |
| CreateTheorems.ExtractSound | klee/lib/Expr/Expr.cpp:670-698 | the extract constructor, which reaches into concatenations, has exactly the bits asked for |
| CreateTheorems.NotSound | klee/lib/Expr/Expr.cpp:700-708 | the complement keeps every bit flipped |
| CreateTheorems.ZExtSound | klee/lib/Expr/Expr.cpp:710-721 | zero extension keeps the value, and to fewer bits cuts it |
| CreateTheorems.SExtSound | klee/lib/Expr/Expr.cpp:723-736 | sign extension keeps the signed value |
| Create.AddCreate | klee/lib/Expr/Expr.cpp:746-792 | the mutual recursion with differences ends although it recurses on built results: above one bit the result is no larger than both operands and one node |
| Create.SubCreate | klee/lib/Expr/Expr.cpp:794-842 | the same for differences |
| CreateShape.AddNormal | klee/lib/Expr/Expr.cpp:746-792 | sums of normal forms are normal forms: no constant on the right, at most one constant at the head |
| CreateShape.SubNormal | klee/lib/Expr/Expr.cpp:794-842 | differences of normal forms are normal forms |
| CreateShape.BinaryShape | klee/lib/Expr/Expr.cpp:738-1212 | a built expression has no more reads than its operands, and each of its parts that is not constant has one; the measure of the rewriting loops |
| ArrayReads.ReadCreateLoop | klee/lib/Expr/Expr.cpp:533-581 | the loop that rolls the update list back builds the expression of the specification |
| ArrayReads.ReadSound | klee/lib/Expr/Expr.cpp:533-581 | a read built on a rolled back list, or taken from a write, has the value of the newest-first lookup in the whole list |
| ArrayReads.ExtendCongruent | klee/lib/Expr/Updates.cpp:51-59 | two lists that look up alike still do when both are extended by the same writes |
| Builder.BuildAddSound | klee/lib/Expr/ExprBuilder.cpp:699-786 | the builder, which moves every left operand outward, ends and keeps the sum modulo the width |
| Builder.BuildSubSound | klee/lib/Expr/ExprBuilder.cpp:788-869 | the same for its differences |
| Visitor.SimplifySound | klee/lib/Expr/ExprVisitor.cpp:42-127 | rewriting to a fixpoint with a table of equalities keeps the value under every assignment that meets the table |
| Visitor.MemoVisitor.Visit | klee/lib/Expr/ExprVisitor.cpp:26-40 | the table of results changes none of them |
| Visitor.ReplaceSound | klee/lib/Expr/Constraints.cpp:33-55 | replacing one expression by another keeps the value wherever the two agree |
| Evaluator.EvalReadLoop | klee/lib/Expr/ExprEvaluator.cpp:14-37 | the walk over the update list computes its specification |
| Evaluator.EvaluateSound | klee/lib/Expr/ExprEvaluator.cpp:39-108 | whatever stays symbolic, the result has the value of the expression |
| Evaluator.EvaluateExact | klee/lib/Expr/ExprEvaluator.cpp:39-108 | without a division by zero the result is the constant that is the value |
| Constraints.SimplifyWithSound | klee/lib/Expr/Constraints.cpp:102-125 | on the assignments that meet the set, simplification keeps the value |
| Constraints.AddConstraintExact | klee/lib/Expr/Constraints.cpp:127-170 | adding is conjunction: for every assignment the new list holds exactly if the old one and the constraint do, through nested rewriting and And-splitting; the assertion fails only if the two have no solution |
| Constraints.AddConstraintSucceeds | klee/lib/Expr/Constraints.cpp:167-170 | if a solution is left the assertion never fails and the new list has a solution |
| Constraints.RewriteExact | klee/lib/Expr/Constraints.cpp:77-96 | rewriting the list with an equality keeps its meaning where the two sides agree |
| Constraints.ConstraintManager.Add | klee/lib/Expr/Constraints.cpp:167-170 | the vector that is swapped out and refilled ends as the specified list |
| Constraints.ConstraintManager.RewriteConstraints | klee/lib/Expr/Constraints.cpp:77-96 | the loop over the swapped-out list, with the answer whether anything changed |
| PathPool.SplitKeeps | klee/lib/Core/Executor.cpp:821-901 | replacing a path by parts keeps live and ended paths pairwise without a common input and covers nothing new; a full split loses nothing |
| PathPool.EndKeeps | klee/lib/Core/Executor.cpp:3026-3051 | ending a path keeps that and covers the same inputs |
| Executors.QueriesExact | klee/lib/Core/TimingSolver.cpp:25-86 | with a solver that is right, the answers after fast path and simplification are exact: must, may, and the three-way evaluation |
| Executors.ConditionsSplit | klee/lib/Core/Executor.cpp:821-901 | exclusive feasible conditions make parts of a path; exhaustive ones make up the whole |
| Executors.RoutesSplit | klee/lib/Core/Executor.cpp:1809-1898 | the conditions grouped for a switch are mutually exclusive and exhaustive under the path |
| Executors.TargetGroups | klee/lib/Core/Executor.cpp:1809-1898 | an input goes to a block exactly if a case of that block is the first to have its value, and to the default if none leads away |
| Executors.Executor.Branch | klee/lib/Core/Executor.cpp:821-901 | the result holds one state for each condition, or one at the fork limit, which then narrows the path; otherwise exhaustive conditions lose no input |
| Executors.Executor.Fork | klee/lib/Core/Executor.cpp:903-1126 | both sides exist exactly if both are feasible; the paths stay disjoint, and unless inhibited no input is lost |
| Executors.Executor.Switch | klee/lib/Core/Executor.cpp:1791-1909 | every resulting state is at the block all its inputs go to; no input is lost below the fork limit |
| Executors.Executor.TerminateState | klee/lib/Core/Executor.cpp:3026-3051 | an ended state leaves the live ones, at once or at the next update, and its inputs stay covered |
| Executors.Executor.UpdateStates | klee/lib/Core/Executor.cpp:2732-2757 | after an update the states are exactly the live ones |
| StateMerge.ExecutionState.Merge | klee/lib/Core/ExecutionState.cpp:163-323 | the merged constraints hold exactly if one of the two lists did; under assignments of the first state locals and bytes are its own, under those of the second only they are the second's; a refused merge changes nothing |
| StateMerge.JoinExact | klee/lib/Core/ExecutionState.cpp:269-320 | the common constraints with the disjunction of the two suffixes mean the disjunction of the two lists |
| StateMerge.SuffixSeparates | klee/lib/Core/ExecutionState.cpp:269-280 | the conjunction of what only the first list has holds under it, and fails under the second without the first |
| StateMerge.StackFollows | klee/lib/Core/ExecutionState.cpp:284-297 | locals chosen by that condition are those of the state whose assignment it is |
| StateMerge.MemoryFollows | klee/lib/Core/ExecutionState.cpp:299-314 | and so are the bytes of memory |
| ObjectStates.ObjectState.FlushRangeForRead | klee/lib/Core/Memory.cpp:259-277 | flushing every byte keeps the logical bytes |
| ObjectStates.ObjectState.FlushRangeForWrite | klee/lib/Core/Memory.cpp:279-307 | and so does flushing and dropping the caches |
| ObjectStates.ObjectState.GetUpdates | klee/lib/Core/Memory.cpp:143-192 | the constant array built from the oldest constant writes changes no logical byte |
| ObjectStates.ObjectState.Read8 | klee/lib/Core/Memory.cpp:359-370 | a read is the function GetByte of the contents and changes no logical byte |
| ObjectStates.ObjectState.Read8At | klee/lib/Core/Memory.cpp:372-387 | a read at a symbolic offset flushes, and changes no logical byte |
| ObjectStates.ObjectState.Write8 | klee/lib/Core/Memory.cpp:398-408 | a write is the function PutByte of the contents |
| ObjectStates.ObjectState.Write8At | klee/lib/Core/Memory.cpp:410-427 | a write at a symbolic offset is the function PutByteAt of the contents |
| ObjectStates.ObjectState.Read | klee/lib/Core/Memory.cpp:429-472 | wherever the word, of one byte or more, lies inside the object the result has the value of its bytes, in either byte order |
| ObjectStates.ObjectState.Write | klee/lib/Core/Memory.cpp:474-532 | wherever the word, of one byte or more, lies inside the object exactly its bytes change, to those of the value |
| ObjectStates.ObjectState.Copy | klee/lib/Core/Memory.cpp:109-127 | a copy has the same contents in memory of its own |
| ObjectOps.MaterialiseExact | klee/lib/Core/Memory.cpp:143-192 | folding the oldest constant writes into a constant array keeps all bytes and the invariants |
| ObjectOps.GetByteExact | klee/lib/Core/Memory.cpp:359-370 | a byte read evaluates to the logical byte |
| ObjectOps.GetByteAtExact | klee/lib/Core/Memory.cpp:372-387 | a read at a symbolic offset evaluates to the byte at its value, whenever that is inside |
| ObjectView.PutByteExact | klee/lib/Core/Memory.cpp:389-408 | a byte written at a constant offset takes the value, and no other changes |
| ObjectView.FlushByteExact | klee/lib/Core/Memory.cpp:259-307 | flushing one byte keeps every logical byte, and every byte cached or flushed, the two agreeing |
| ObjectOps.PutByteAtExact | klee/lib/Core/Memory.cpp:410-427 | a write at a symbolic offset changes exactly the byte at the value of the offset |
| ObjectWords.WordRoundTrip | klee/lib/Core/Memory.cpp:456-532 | a word written and read at one constant offset is the word, and no other byte changes |
| ObjectWords.WordRoundTripAt | klee/lib/Core/Memory.cpp:429-499 | the same at a symbolic offset, under every assignment that puts the word inside |
| ObjectWords.LoadAfterStore | klee/lib/Core/Memory.cpp:429-532 | what a store put in, a load from the same offset gives back |
| ObjectWords.BoolRoundTrip | klee/lib/Core/Memory.cpp:456-532 | a Boolean stored as a byte is read back as that Boolean |
| AddressSpaces.AddressSpace.Copy | klee/lib/Core/AddressSpace.h:67 | a copy keeps all spaces isolated exactly if the epoch does not wrap or nothing is shared |
| AddressSpaces.AddressSpace.BindObject | klee/lib/Core/AddressSpace.cpp:22-26 | binding keeps isolation and changes this space's object only |
| AddressSpaces.AddressSpace.UnbindObject | klee/lib/Core/AddressSpace.cpp:28-30 | unbinding too |
| AddressSpaces.AddressSpace.GetWriteable | klee/lib/Core/AddressSpace.cpp:37-50 | the state itself exactly if the space owns it, else a fresh copy; in isolated spaces no other binding has it |
| AddressSpaces.AddressSpace.DoAccess | klee/lib/Core/AddressSpace.cpp:37-50 | any access refines private memory: reads answer from it, and a write changes one object of one space; no other binding can tell |
| AddressSpaces.TakenForOwn | klee/lib/Core/AddressSpace.h:67 | after 2^32 copies a space has the epoch of a state that it shares with the first copy, all of whose bytes are zero |
| AddressSpaces.SharedWrite | klee/lib/Core/AddressSpace.cpp:37-50 | a write through a space to a state whose epoch it has, and that another shares, is made in place and seen in the other |
| AddressSpaces.WriteSeen | klee/lib/Core/AddressSpace.h:67 | the run from the start: both spaces still share the state, and a byte of the copy that was zero is what the original has written |
| Resolution.ResolveOneConstant | klee/lib/Core/AddressSpace.cpp:54-72 | looking only at the last object at or below the address is as good as a scan of all |
| Resolution.BoundsExact | klee/lib/Core/Memory.h:120-137 | the wrap-around bounds check holds exactly if the pointer's value is an address of the object |
| Resolution.BytesExact | klee/lib/Core/Memory.h:138-146 | the check for an access of several bytes holds exactly if the object is not empty and all of them are addresses of it |
| Resolution.PointerQueries | klee/lib/Core/AddressSpace.cpp:167-199 | the four queries of the search say what they should of the pointer |
| Resolution.Resolve | klee/lib/Core/AddressSpace.cpp:201-284 | from any example, complete means exactly the objects the pointer may lie in, despite the early exits; incomplete means the cap, of two or more, is reached; a cap is kept exactly if it is not one or there is at most one object |
| Resolution.ResolveOne | klee/lib/Core/AddressSpace.cpp:74-165 | one object the pointer may lie in, and none only if there is none |
| Resolution.CapOfOneFails | klee/lib/Core/AddressSpace.h:89-95 | a pointer and a layout for which a cap of one gives two objects |
| MemoryManagement.MemoryManager.Allocate | klee/lib/Core/MemoryManager.cpp:99-158 | aligned, the red zone away from every object before, and refused exactly for the sizes, alignments and addresses the code refuses |
| MemoryManagement.MemoryManager.MarkFreed | klee/lib/Core/MemoryManager.cpp:180-186 | only the freed object goes |
| MemoryManagement.MemoryManager.LaidOut | klee/lib/Core/MemoryManager.cpp:118-136 | the allocator keeps the order and the gaps the search needs |
| MergeProtocol.Executor.constructor | klee/lib/Core/MergeHandler.cpp:136-141 | the initial state of all runs |
| MergeProtocol.Executor.OpenMerge | klee/lib/Core/SpecialFunctionHandler.cpp:332-345 | a new handler on top of the stack, held by the state alone |
| MergeProtocol.Executor.Fork | klee/lib/Core/ExecutionState.cpp:93-120 | the copy is registered with every handler on its stack, once |
| MergeProtocol.Executor.AddClosedState | klee/lib/Core/MergeHandler.cpp:81-120 | the state, scheduled or new, leaves the open states; it is merged exactly if one that waits at the same instruction takes it, else it waits there; it fails exactly if a new state is merged |
| MergeProtocol.Executor.CloseMerge | klee/lib/Core/SpecialFunctionHandler.cpp:347-371 | for scheduled and new states: who waits, who ends and who goes on; the handler goes exactly with its last holder; the assertion fails exactly if a new state is merged; what the base searcher has, and when it was misused |
| MergeProtocol.Executor.ReleaseStates | klee/lib/Core/MergeHandler.cpp:122-130 | exactly the states that wait for the handler go on |
| MergeProtocol.Executor.Delete | klee/lib/Core/ExecutionState.cpp:85-91 | a deleted state leaves every handler, and those nobody holds let their states go on |
| MergeProtocol.Executor.TerminateState | klee/lib/Core/Executor.cpp:3026-3051 | a state that does not wait ends and all invariants stay; the searchers stay in step exactly if it was not a new state that is scheduled already |
| MergeProtocol.Executor.UpdateStates | klee/lib/Core/Searcher.h:244-253 | the base searcher has exactly what does not wait if and only if, with the current state paused, nothing was removed and every new state waits or is scheduled, and otherwise no new state goes on waiting; and exactly when it is given a state it has |
| MergeProtocol.Executor.SelectState | klee/lib/Core/Searcher.cpp:324-351 | there always is a state to select, and it does not wait |
| MergeProtocol.Executor.PausedExact | klee/lib/Core/Searcher.h:228-240 | paused, in close merge and in a handler's group are the same; the group is one only, and its handler has a holder |
| MergeProtocol.Executor.LingersExact | klee/lib/Core/Searcher.h:244-253 | while nothing has ended, the states that go on waiting are those in close merge |
| MergeProtocol.Executor.NeverStuck | klee/lib/Core/MergeHandler.cpp:70-153 | in step, the base searcher is never empty while there are states: not all can wait |
| MergeProtocol.RunMeets | klee/lib/Core/SpecialFunctionHandler.cpp:332-371 | from the start: open, fork, close, close; afterwards nothing waits and no handler is left |
| MergeProtocol.RunStuck | klee/lib/Core/Searcher.h:244-253 | a run from the start that leaves a runnable state unscheduled |
| MergeProtocol.RunWaiting | klee/lib/Core/Searcher.h:230-253 | a run in which a new state closes: the base searcher is misused, and in the end schedules a state that waits |
| MergeProtocol.RunRefused | klee/lib/Core/MergeHandler.cpp:74-108 | a run in which two states close in the step of their fork: the assertion fails exactly if the second is merged |
| ProcessTree.PTree.Attach | klee/lib/Core/PTree.cpp:24-30 | childless nodes stay in bijection with live states |
| ProcessTree.PTree.Remove | klee/lib/Core/PTree.cpp:32-46 | the leaf and every node left without a child go; the bijection stays while a state is left |
| ProcessTree.PTree.SelectState | klee/lib/Core/Searcher.cpp:284-303 | the descent ends at a live state, the one every sequence of flips that the coin follows leads to |
| ProcessTree.EveryLeafReached | klee/lib/Core/Searcher.cpp:284-303 | for every live state there are flips that lead to it |
| ProcessTree.DescentUnique | klee/lib/Core/Searcher.cpp:284-303 | flips that agree as far as both go lead to the same leaf |
| CallPaths.AddKeeps | klee/lib/Core/CallPathManager.cpp:61-72 | a new path never repeats a call from node to root |
| CallPaths.CallPathManager.ComputeCallPath | klee/lib/Core/CallPathManager.cpp:61-72 | the node above that has the call, or a new one |
| CallPaths.CallPathManager.GetCallPath | klee/lib/Core/CallPathManager.cpp:74-89 | remembered, folded or new; no old path moves |
| CallPaths.PartialStep | klee/lib/Core/CallPathManager.cpp:51-58 | one step of the reverse pass adds a finished node to its parent |
| CallPaths.CallPathManager.GetSummaryStatistics | klee/lib/Core/CallPathManager.cpp:44-59 | one reverse pass leaves every node but the root with the sum over its subtree, the root with that on top of what it had, and the table with the cost under each call, nothing counted twice |
| CallPaths.RootGrows | klee/lib/Core/CallPathManager.cpp:44-59 | two calls on one path of cost v: the root says v and then 2v |
| CallPaths.UnderExact | klee/lib/Core/CallPathManager.cpp:51-58 | what a call's row covers is what lies below a node with that call |
| Distances.StatsTracker.ComputeReturns | klee/lib/Core/StatsTracker.cpp:850-913 | the sweeps end with the shortest weighted distance to a return in every slot, and through every function, the two depending on each other; zero exactly if there is none |
| Distances.StepProgress | klee/lib/Core/StatsTracker.cpp:875-913 | each change fills an empty slot or makes the sum smaller |
| Distances.FixedExact | klee/lib/Core/StatsTracker.cpp:875-913 | where no step changes anything all slots are exact |
| Distances.StatsTracker.ComputeUncovered | klee/lib/Core/StatsTracker.cpp:915-992 | the same for the distance to uncovered code past calls, and when that is the distance into calls as well |
| Distances.DeepExact | klee/lib/Core/StatsTracker.cpp:945-962 | the slots count code inside functions called exactly if, of the program and what is uncovered, a way past a call is never longer by more than one than a way ahead in a function it enters |
| Distances.CalleeIgnored | klee/lib/Core/StatsTracker.cpp:953-961 | a program in which a call is at distance two from the only uncovered code, inside the function called, and has no route |
| Distances.StackExact | klee/lib/Core/StatsTracker.cpp:755-775 | the distance of a state over its frames is exact |
| Distances.StatsTracker.ComputeReachableUncovered | klee/lib/Core/StatsTracker.cpp:824-1015 | both sweeps and the walk over the frames, together |
| LetLevels.CollectUses | klee/lib/Expr/ExprSMTLIBPrinter.cpp:762-781 | the walk with a stack collects exactly the bindings met first |
| LetLevels.ScanBindingExprDeps | klee/lib/Expr/ExprSMTLIBPrinter.cpp:731-821 | every binding in one level, the first that has all it uses before it, with a number of its own, from one on |
| LetLevels.NothingLeft | klee/lib/Expr/ExprSMTLIBPrinter.cpp:786-820 | the work list runs empty only when all bindings are placed |
| LetLevels.LetsExact | klee/lib/Expr/ExprSMTLIBPrinter.cpp:864-933 | nested parallel lets (section 3.6 of The SMT-LIB Standard, version 2.6) use bound names only and stand for the original |
| LetLevels.PrintAssert | klee/lib/Expr/ExprSMTLIBPrinter.cpp:864-933 | printing level by level gives such lets |
| LetLevels.PrintAbbreviated | klee/lib/Expr/ExprSMTLIBPrinter.cpp:731-933 | whatever the bindings, expanding the printed lets gives the expression back |
| SelectChain.RunTestExact | klee/lib/Expr/ArrayExprOptimizer.cpp:494-512 | the signed test of a run is the interval test exactly if the run does not cross into the negative indices; else it rejects all |
| SelectChain.FindRuns | klee/lib/Expr/ArrayExprOptimizer.cpp:451-471 | the loop splits the array into its longest runs |
| SelectChain.ChainExact | klee/lib/Expr/ArrayExprOptimizer.cpp:490-566 | the chain selects the element for exactly the indices not lost to such a run |
| SelectChain.BuildConstantSelectExpr | klee/lib/Expr/ArrayExprOptimizer.cpp:434-573 | nothing exactly if there are too many different values; else the chain, with its value for every index and assignment |
| SelectChain.LossExact | klee/lib/Expr/ArrayExprOptimizer.cpp:490-566 | an index is lost exactly if a run of several elements, not of the least value, holds the last nonnegative index; none if the array ends before it |
| SelectChain.LossExample | klee/lib/Expr/ArrayExprOptimizer.cpp:434-573 | with a 32-bit index, the ratio 1.0 and any length from 2^31 on, the chain that is built for a zero and then ones never gives a one at index 1 |
| SetCover.FeatureGenerator.CollectFeatmaker | featmaker_subscript/feature_generator.py:71-120 | the branches are those of all test cases so far, and of the distinct branch sets; the indices stay right |
| SetCover.FeatureGenerator.Record | featmaker_subscript/feature_generator.py:84-105 | one test case enters the tables under the index of its path condition |
| SetCover.FeatureGenerator.ClusterSetcover | featmaker_subscript/feature_generator.py:130-150 | the loop ends; the picks are distinct, greedy, and cover every branch |
| SetCover.PickShare | featmaker_subscript/feature_generator.py:139-149 | a pick covers at least its share of what is left, against any cover |
| SetCover.GreedyBound | featmaker_subscript/feature_generator.py:139-149 | after k picks, against any cover of m sets, remaining times m^k is at most n times (m-1)^k |
| SetCover.GreedyDistinct | featmaker_subscript/feature_generator.py:139-149 | what a pick covered is never picked again |

## Left out

- Create, Visitor, Constraints: `NotOptimizedExpr`, and `TryConstArrayOpt`, which is off by default.
- Exprs.EvalBinary: a division by zero and a shift by the width or more have fixed total values, which agree with the
  one-bit rules; the source leaves the former undefined. `Evaluator.EvaluateExact` requires that none divides by zero.
- Array names, and the identity of arrays: two arrays of equal fields are one. The truncation of an index to 32 bits
  in `evalRead`, as indices are 32 bits wide.
- Builder: its other operators, which have no recursion of their own.
- Visitor: the memo table of the replacing visitor, which lives for one visit only.
- Executors: seeds, replay, the caps on the share of forks, the pruning at known interpolants, indirect branches,
  and solver failures other than the timeout of a fork. The cost counters of a query.
- Executors, StateMerge and MergeProtocol each keep the fields of a state they need, in a record of their own.
- ObjectStates: `copyInConcrete`, `copyOutConcretes` and `flushToConcreteStore`, which go around the flush mask for
  calls of external code; one-bit accesses at a symbolic offset; the option that turns constant arrays off; object size
  warnings.
- ObjectStates.ObjectState.Read: words of bytes only; a one-bit load at a constant offset is in
  `ObjectWords.BoolRoundTrip`.
- ObjectStates.ObjectState.Write: words of bytes only; a one-bit store at a constant offset is there as well.
- StateMerge.ExecutionState.Merge: the set of symbolics is compared, not merged, as in the source; heap addresses that
  order the sets of constraints are left open, so the order of the merged list is.
- Resolution: timeouts and solver failures. The objects are sorted, disjoint and do not wrap around, which
  `MemoryManagement.MemoryManager.LaidOut` gives.
- MemoryManagement.MemoryManager.Allocate: does not model the wrap-around of 64-bit addresses, because the deterministic
  space is mapped and ends below it; the branch that calls malloc is left out.
- MergeProtocol: states and handlers are known by number, not by pointer; handlers lie on a stack in the order of their
  creation. Ending a state while it is paused, at the memory cap or for an illegal target of a symbolic call; what
  happens after the assertion of `RunRefused`; the order of the base searcher, which is a set. The instruction distance
  is not cut to 32 bits, and the mean is a real number, without rounding.
- Distances: the 32-bit `bestThrough` and counters do not wrap around. How call targets are found.
- ProcessTree and CallPaths: nodes are known by number; pictures and listings are left out.
- LetLevels: `scan`, as any bindings will do; sorts and casts between Booleans and bit vectors; the other ways to
  abbreviate; layout and options.
- SelectChain: the mixed chain for arrays with symbolic values, and the index-based transformation. The array size
  is the length of the vector, as in both calls.
- SetCover: files, pickling, the naive collection and the weights.
- Other searchers, statistics output, test-case files, the query language printer and parser, implied values, and the
  scripts that run the tools.
