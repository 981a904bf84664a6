# A verified model of the SysY compiler's optimizer core

The compiler turns SysY programs into ARM code. This project models the parts of it that carry a
real argument and proves that argument for all inputs: the flow-graph analyses, the passes that move,
rewrite and generate code, the two register allocators, and the two in-place containers that
everything else is built on. To verify it with Dafny 4.11: `dafny verify dfyconfig.toml`.

Where the source changes things in place, so does the model: worklists in a ring buffer, bit vectors
in arrays, version stacks, lattice cells, patch lists, interference-graph fields, linked tree nodes
and linked bitmap blocks are fields or arrays that loops update. Each such method is proved against
a value-level specification, and the promises are then proved about that specification.

- **Flow graphs** (`Cfg`, `DfsOrder`, `Dfs`). Blocks, numbered edges, ordered successor and predecessor
  lists; the explicit-stack search is the recursive one, and its first list is a depth-first pre-order.
- **Lazy code motion** (`MustFlow`, `WorkRing`, `Lcm`, `LcmPlacement`, `LcmPaths`, `LcmCorrectness`,
  `LcmOptimal`, `LcmLifetime`, `SplitEdges`). The four worklist solvers end in the greatest solutions,
  which are exactly the path properties they stand for; the insertions and deletions keep the meaning of
  every path, are exact once critical edges are split, no correct and safe placement makes any path
  evaluate an expression less often, and none that evaluates it as seldom inserts later; splitting leaves
  no critical edge, touches no other, and keeps the flow.
- **Dominance and SSA** (`Dominance`, `Frontier`, `Liveness`, `PhiPlacement`, `Renaming`, `Renamer`,
  `Rewrite`, `SsaCorrectness`, `BuildSsa`). Exact dominators, immediate dominators, frontiers and
  liveness, pruned phis, and the theorem about the renaming: on every path the operand carries the
  version of the last write.
- **Sparse conditional constant propagation** (`Words`, `Sccp`, `SccpSolver`, `SccpSoundness`,
  `SccpReach`). The two worklists terminate, values only climb, at the end every run stays inside the
  visited blocks and agrees with every recorded constant, and no solution of the equations lies below.
- **Backpatching** (`Backpatch`, `BackpatchFill`, `BackpatchGen`, `BackpatchCorrectness`). The
  generated jump code behaves like the nest of conditions and statements it comes from, and every hole
  is filled.
- **Colouring** (`MpInt`, `SpillCost`, `Coloring`, `ColoringAssign`, `ColoringLists`, `ColoringRounds`,
  `ColoringGraph`, `ColoringLeak`). Exact spill costs in multi-precision numbers; the worklists of
  iterated coalescing lose no node, the driver loop takes from its four lists in their order and ends
  with every node precoloured, stacked or merged, and then the colours are determined and differ along
  the arcs through alias chains, with one exact exception.
- **Linear scan** (`Ranges`, `LiveRanges`, `ScanState`, `ScanRun`, `LinearScan`). The ranges of a register
  cover exactly the positions where it is held; registers differ for overlapping intervals in spite of a
  sort that leaves two elements unordered; an interval is spilled only where every register is refused,
  and none is where there is room for all.
- **Containers** (`AvlTree`, `AvlHeap`, `AvlSteps`, `AvlRemove`, `AvlTable`, `AvlTraverse`; `BitWords`,
  `BitmapSet`, `BitmapCells`, `Bitmaps`). The balanced tree on linked cells and the sparse bitmap on
  doubly linked blocks.
- **Arithmetic** (`Words`, `DivCnst`, `TreeHeight`, `Huffman`, `TreeBalance`). Shifts for multiplication
  and division by powers of two, and reassociation of addition and multiplication trees modulo 2^32: the
  new trees have the least weighted path length, and the least height when their leaves weigh the same.

Three places where the code does not do what one would expect are stated as results.

- freeze_moves does not ask whether the other end of a move is precoloured, nor does decrement_degree
  when a node has open moves, so a precoloured node p can reach the select stack. It keeps its colour
  there, and every node that is popped with a neighbour standing for p takes heed of it. But a node merged
  after p was stacked leaves its arc to p behind: the node v it is merged into has no neighbour that
  stands for p. `ColoringAssign.ClashExactly` says when the ends of an arc get one colour: exactly when
  they stand for such a p and v and p's colour is the first free one of v's class.
  `ColoringLeak.TwoOfOneColour` is such a run of the driver loop, on six nodes and two colours. An arc is
  right whenever each of its ends is unmerged or merged into a precoloured node
  (`ColoringAssign.UnmergedKept`), and every arc is when no move has a precoloured end
  (`ColoringGraph.Ifg.Colorize`).
- The last search of spill_at_interval takes any victim for an interval that must not be spilled. Such
  an interval is safe in its register exactly when the part of it after the victim's end meets no fixed
  range (`ScanState.EvictSafe`, `LinearScan.Allocator.Allocate`); for the one-position intervals of the
  spill code that can fail only with the first of two active intervals (`ScanState.EvictOnePosition`), and
  it does (`LinearScan.FixedRangeMissed`).
- The solver of constant propagation evaluates the uses of a changed variable in blocks that it has not
  visited, too, and follows their jumps. What it finds is the least solution of the equations that this
  amounts to (`SccpSolver.LeastSolution`), but not of those of the executable blocks alone: in
  `SccpReach.LooksFurther` it visits a block that only an unentered one leads to.

## Model

| member | source | states |
|---|---|---|
| DfsOrder.EnteredInOrder | IR/cfg.c:654-705 | in the first list of a search each block is entered by an edge of the start or of a block before it |
| DfsOrder.BelowFollows | IR/cfg.c:654-705 | each block of the first list is followed at once by exactly the blocks that a walk from it reaches past everything listed before it |
| Dfs.SearchForward | IR/cfg.c:631-715 | the search with cursors ends with the two lists of the recursive search, the first of them a depth-first pre-order; both hold each reachable ordinary block exactly once, and an edge that goes backwards in the second closes a cycle |
| Dfs.PreAndRevPostOrder | IR/cfg.c:631-715 | the same with the entry block first and the exit block last; the reversed search is the search of the reversed graph |
| Dfs.TopologicalOrder | IR/cfg.c:631-715 | without cycles every edge goes forward in the list |
| WorkRing.Ring.Push | opt/lcm.c:204-230 | the ring refines a queue; there is room for one entry less than it has slots only because of the marks |
| WorkRing.Ring.Pop | opt/lcm.c:231-245 | takes the oldest entry of the queue |
| WorkRing.RoomForFree | opt/lcm.c:185-283 | a block that is not marked as queued always finds room in the ring of count - 2 slots |
| Lcm.Intersection | opt/lcm.c:121-183 | the intersection over the neighbours that are not the boundary block |
| Lcm.ComputeAvailable | opt/lcm.c:184-283 | ends with the greatest solution of the availability equations, and with avin as its meet |
| Lcm.ComputeAntinout | opt/lcm.c:286-386 | the same for anticipability, against the edges |
| MustFlow.Problem.GreatestIsLargest | opt/lcm.c:184-593 | what the worklists compute lies above every other solution of the equations |
| LcmPaths.AvailableOnEveryPath | opt/lcm.c:184-283 | an expression is available at a block if and only if every path from the entry computes it and does not kill it afterwards |
| LcmPaths.AnticipatedExactly | opt/lcm.c:286-386 | an expression is anticipated at a block if and only if no walk from there comes to the exit, or to a change of an operand, before it is computed |
| LcmPaths.AnticipatedOnEveryPath | opt/lcm.c:286-386 | an anticipated expression is computed on every path to the exit before an operand changes |
| LcmPlacement.ComputeEarliest | opt/lcm.c:388-461 | earliest on every edge, from anticipability and availability |
| LcmPlacement.ComputeLaterin | opt/lcm.c:463-593 | ends with the greatest solution of the delayability equations on edges |
| LcmPlacement.ComputeInsertDelete | opt/lcm.c:595-630 | insertions are delayable edges that the target does not postpone further; deletions are uses that are not postponed |
| LcmCorrectness.LazyCodeMotion | opt/lcm.c:1056-1203 | the solvers and placement steps in sequence leave all equations satisfied by greatest solutions |
| LcmCorrectness.TemporaryCorrect | opt/lcm.c:388-630 | on every path to a deleted use the temporary holds the value that the expression has there |
| LcmCorrectness.PreservesMeaning | opt/lcm.c:891-1054 | on every path the values computed by the moved instruction are the same before and after |
| LcmCorrectness.LaterIsAnticipated | opt/lcm.c:463-593 | an expression is delayed only to edges whose target needs it on every way out |
| LcmCorrectness.InsertionIsExact | opt/lcm.c:964-1054 | without critical edges an insertion's edge is the only way out of its source, and its target anticipates the expression |
| LcmCorrectness.NoMoreEvaluations | opt/lcm.c:464-630 | no path from entry to exit evaluates the expression more often than before |
| LcmOptimal.CorrectPreserves | opt/lcm.c:891-1054 | every placement in which each deleted use finds its value on every path preserves meaning |
| LcmOptimal.IncorrectChanges | opt/lcm.c:891-1054 | and no other one does |
| LcmOptimal.ChosenAdmissible | opt/lcm.c:388-630 | the placement of the pass is correct, and inserts only where the expression is needed on every walk |
| LcmOptimal.NoFewerEvaluations | opt/lcm.c:388-630 | no correct and safe placement evaluates the expression less often, on any path from entry to exit |
| LcmLifetime.NoneInsertsLater | opt/lcm.c:388-630 | where a copy is inserted, the temporary of every correct and safe placement that evaluates as seldom already holds the value, on every path that leads there |
| SplitEdges.SplitCriticalEdges | opt/lcm.c:33-87 | afterwards no edge is critical and at most one edge enters the exit; every old edge still leads from its block to its target, through at most two blocks that hold a jump, and directly unless it was critical or one of several into the exit; every block stays reachable |
| SplitEdges.SplitKeeps | opt/lcm.c:54-65 | splitting one critical edge keeps the flow and makes that edge need no second split |
| SplitEdges.CollectKeeps | opt/lcm.c:66-85 | gathering the edges into the exit keeps the flow and can happen only once |
| Dominance.ComputeDominators | opt/ssa.c:82-162 | d is in the result for b if and only if d lies on every path from the entry to b |
| Dominance.GreatestIsExact | opt/ssa.c:82-162 | the greatest solution of the dominator equations is dominance |
| Frontier.GetImmediateDominator | opt/ssa.c:164-233 | the first strict dominator met going backwards breadth-first is the immediate dominator; only the entry has none |
| Frontier.ComputeIdoms | opt/ssa.c:164-233 | the immediate dominators of all blocks form a tree rooted in the entry |
| Frontier.SegmentIsFrontier | opt/ssa.c:235-269 | below a join the blocks from a predecessor up to the immediate dominator are those that dominate the predecessor but not strictly the join |
| Frontier.ComputeDominanceFrontiers | opt/ssa.c:235-269 | the runner walk with its early exit computes exactly the dominance frontiers |
| Liveness.ComputeLiveness | IR/cfg.c:717-826 | a variable is live exactly if some path reads it before writing it |
| PhiPlacement.InsertPhis | opt/ssa.c:271-381 | phis are closed under frontiers, only where the variable is live, each forced by a definition, none twice |
| Rewrite.RewriteBlock | opt/ssa.c:383-509 | the whole subtree is renamed with the versions on the stacks, versions stay distinct, nothing outside is touched, and every stack is what it was before |
| SsaCorrectness.NothingBetween | opt/ssa.c:271-502 | between a predecessor and the immediate dominator of a block without a phi nothing defines the variable |
| SsaCorrectness.ArrivalAgrees | opt/ssa.c:271-502 | along every path the last writes have the versions that the dominator tree gives |
| SsaCorrectness.UseCarriesLastWrite | opt/ssa.c:383-502 | on every path to a read operand the last write of the variable is the one whose version the operand carries |
| SsaCorrectness.ArgCarriesLastWrite | opt/ssa.c:430-470 | the same for the operands of phis |
| SsaCorrectness.VersionTellsWrite | opt/ssa.c:383-502 | an operand and a write have one version exactly when that write is the last one on the path |
| BuildSsa.PlacePhis | opt/ssa.c:511-663 | dominators, tree, frontiers, liveness and phis together meet what the renaming needs |
| BuildSsa.Build | opt/ssa.c:511-663 | every use and every phi operand carries the last write on every path, no two definitions share a version, and every phi is forced by a chain of definitions in the code |
| SccpSolver.OneDefinitionNeeded | opt/sccp.c:51-97 | why the solver asks for SSA form: in programs that define a variable twice the records of the first visit go from one constant to another, or from overdefined back to a constant |
| Sccp.TargetsPossible | opt/sccp.c:540-629 | a conditional jump gets every target that some operand values lead to, and no other one exactly unless an undefined operand meets an overdefined one or a constant at the end of the range decides the comparison |
| SccpSolver.Solver.EvaluatePhi | opt/sccp.c:426-523 | the four passes over the incoming edges compute the join of the executable operands |
| SccpSolver.Solver.Evaluate | opt/sccp.c:51-526 | an evaluation joins the value the instruction has into its target and reports exactly whether something changed |
| SccpSolver.Solver.FeasibleSuccessors | opt/sccp.c:540-629 | exactly the successors that a jump can take given the recorded values |
| SccpSolver.Solver.ProcessBlock | opt/sccp.c:673-695 | the phis every time, the rest on the first visit; what is recorded climbs and nothing is left unqueued |
| SccpSolver.Solver.Solve | opt/sccp.c:742-800 | both worklists run empty, values only climb, visited blocks only grow, and nothing is claimed that some solution does without |
| SccpSolver.LeastSolution | opt/sccp.c:742-800 | with both worklists empty the values, edges and blocks solve the equations of every instruction whose block is visited or that reads a changed variable, and every other solution lies above |
| SccpReach.LooksFurther | opt/sccp.c:528-538 | a program on which the solver visits a block that a solution for the executable blocks alone does without |
| SccpSoundness.RunsAreRight | opt/sccp.c:742-800 | at the fixpoint every block a run enters is visited and every value it can read equals the recorded constant |
| SccpSoundness.Propagate | opt/sccp.c:742-800 | the whole analysis is sound for all runs, finds the least solution, and folds each instruction of a visited block whose operands are known and that does not divide by zero |
| BackpatchGen.Generator.DoBackpatch | IR/IRGenerator.c:2413-2433 | every hole of the list is filled with the given id, everything else stays |
| BackpatchGen.Generator.EmitCmp | IR/IRGenerator.c:2454-2546 | one conditional jump whose holes are on the two lists; constant comparisons leave one list empty |
| BackpatchGen.Generator.VisitCond | IR/IRGenerator.c:589-707 | the code and the two lists of any nest of and, or, not and comparisons |
| BackpatchGen.Generator.GenStmt | IR/IRGenerator.c:1023-1369 | the code and the lists of open exits of any statement; it fails exactly for a break or continue outside a loop |
| BackpatchGen.Generator.GenFunction | IR/IRGenerator.c:1761-1859 | the finished code of a function |
| BackpatchCorrectness.FunctionRuns | IR/IRGenerator.c:203-248 | the jump code takes the same branches and the same steps as the source, for runs that end and runs that do not |
| BackpatchCorrectness.SameBehaviour | IR/IRGenerator.c:1023-1369 | the code stops after given steps if and only if the source does |
| BackpatchCorrectness.FunctionFilled | IR/IRGenerator.c:2413-2546 | every hole of a finished function names an instruction of that function |
| BackpatchCorrectness.Compile | IR/IRGenerator.c:1761-1859 | both of these for the code that the generator emits |
| MpInt.SetU32 | backend/ra-colorize.c:134-148 | the number is stored in base 2^15 |
| MpInt.Add | backend/ra-colorize.c:212-278 | the exact sum, normalised |
| MpInt.ColumnExact | backend/ra-colorize.c:280-325 | a column of the product fits a 32-bit word and its carry a digit |
| MpInt.Mul | backend/ra-colorize.c:280-325 | the exact product, normalised |
| MpInt.Cmp | backend/ra-colorize.c:327-347 | the sign of the exact difference |
| SpillCost.EstimateSpillCosts | backend/ra-colorize.c:1260-1319 | the cost of a register is the sum of ten to the loop depth over its occurrences |
| SpillCost.SelectSpill | backend/ra-colorize.c:1092-1122 | a cheapest candidate among those that may be spilled, the first of equals; the first node if none may |
| Coloring.AnyOrder | backend/ra-colorize.c:821-843 | without merged nodes every stack order is coherent |
| Coloring.CombineKeeps | backend/ra-colorize.c:940-977 | merging keeps the graph coherent through alias chains |
| ColoringAssign.PopStep | backend/ra-colorize.c:1132-1161 | a popped node gets the first colour of its class that no neighbour has before it, and later colours do not change that |
| ColoringAssign.EndsDiffer | backend/ra-colorize.c:1125-1177 | the nodes that the ends of an arc stand for differ in colour or one is spilled, unless one is precoloured and stacked and the other sees no neighbour that stands for it |
| ColoringAssign.UnmergedKept | backend/ra-colorize.c:1125-1177 | an arc is right when each end is unmerged or merged into a precoloured node |
| ColoringAssign.ClashExactly | backend/ra-colorize.c:939-1177 | exactly when the ends of an arc get one colour |
| ColoringAssign.Determined | backend/ra-colorize.c:1125-1177 | what is stated of the colours and the spilled nodes leaves no other outcome |
| Coloring.TakenFromAbove | backend/ra-colorize.c:1125-1177 | a node finds at most as many colours taken as it has neighbours above it on the stack and neighbours that had their colours before |
| ColoringLists.DecrementKeeps | backend/ra-colorize.c:791-818 | a node that loses a neighbour stays on the list that its count and its open moves ask for |
| ColoringLists.MarkKeeps | backend/ra-colorize.c:940-960 | merging two nodes keeps every live node listed and every open move known to what its ends stand for |
| ColoringLists.FreezeKeeps | backend/ra-colorize.c:1032-1076 | giving up a move leaves no node on the freeze list without an open move |
| ColoringGraph.Ifg.InsertArc | backend/ra-colorize.c:409-423 | both directions and both counts, once |
| ColoringGraph.Ifg.BuildArcs | backend/ra-colorize.c:595-705 | the arcs that are asked for and no others, and the invariant |
| ColoringGraph.Ifg.BuildWorklists | backend/ra-colorize.c:1236-1258 | each node that is not precoloured on the list that its count and its moves ask for |
| ColoringGraph.Ifg.AliasOf | backend/ra-colorize.c:845-859 | the end of the chain of merges |
| ColoringGraph.Ifg.Simplify | backend/ra-colorize.c:820-843 | the first node of the list goes on the stack, just its live neighbours lose a neighbour, and the lists and the moves that are looked at again are given exactly |
| ColoringGraph.Ifg.Combine | backend/ra-colorize.c:939-977 | the whole graph, the lists and the moves that are looked at again after a merge, and the invariant |
| ColoringGraph.Ifg.Ok | backend/ra-colorize.c:877-904 | every live neighbour is of low degree, precoloured, or already a neighbour |
| ColoringGraph.Ifg.Conservative | backend/ra-colorize.c:906-937 | fewer neighbours of significant degree than registers |
| ColoringGraph.Ifg.Coalesce | backend/ra-colorize.c:979-1030 | the first move is coalesced, constrained, merged or made to wait, each exactly in its case, and the graph, the lists and the sets of moves that result are given exactly |
| ColoringGraph.Ifg.FreezeMoves | backend/ra-colorize.c:1032-1076 | just the other ends that are left without open moves and have few neighbours are to be simplified, precoloured or not |
| ColoringGraph.Ifg.Freeze | backend/ra-colorize.c:1078-1088 | the first node of the freeze list gives up its moves |
| ColoringGraph.Ifg.SpillOne | backend/ra-colorize.c:1091-1122 | the cheapest node of the spill list that may be spilled, or the first node if none may, gives up its moves and is to be simplified |
| ColoringRounds.SpilledLast | backend/ra-colorize.c:1374-1387 | a node is chosen for spilling only when nothing can be simplified, coalesced or frozen, and then it is a cheapest one that may be spilled |
| ColoringGraph.Ifg.Round | backend/ra-colorize.c:1376-1386 | a round takes the first element of the first list that is not empty, and what it leaves is that list's step |
| ColoringGraph.Ifg.Reduce | backend/ra-colorize.c:1374-1392 | the loop is a sequence of such rounds; it ends, with every node precoloured, stacked or merged, and no arc lost |
| ColoringGraph.Ifg.AssignColors | backend/ra-colorize.c:1124-1177 | when it ends, each node of the stack has the first colour of its class that no neighbour had before it or has been spilled because all are taken, merged nodes have the colours of their aliases, and the ends of every arc differ with the one exception; it stops only at a node that must not be spilled and may lack a colour |
| ColoringGraph.Ifg.Colorize | backend/ra-colorize.c:1338-1384 | the whole round, from the pairs that interfere to colours that differ for them, and exactly when two do not; no precoloured node is stacked when no move has a precoloured end |
| ColoringLeak.TwoOfOneColour | backend/ra-colorize.c:1338-1384 | a run of the loop that stacks a precoloured node, merges a neighbour of it after that, and gives both one colour |
| Ranges.AddRangeCovers | backend/linearscan.c:131-149 | exactly which positions a list covers after a range has been added |
| Ranges.AddRangeSorted | backend/linearscan.c:131-149 | the list stays in order if and only if the new range does not reach the second one |
| LiveRanges.UseReady | backend/linearscan.c:171-174 | a use adds just its positions, and the list stays in order, when the walk goes backwards |
| LiveRanges.DefReady | backend/linearscan.c:151-169 | a definition cuts off just what lies before it and is covered itself, and the list stays in order |
| LiveRanges.Interval.ScanBlock | backend/linearscan.c:778-847 | the walk over one block adds exactly the positions where the block holds the register |
| LiveRanges.Interval.Scan | backend/linearscan.c:704-851 | after the walk over all blocks the ranges of a register are in order, none is empty, and they cover exactly the positions where a block, an instruction or a call holds it |
| Ranges.IntersectsAt | backend/linearscan.c:176-211 | -1 exactly when no range of one list meets one of the other; else the least position at which two meet, which no common position precedes |
| Ranges.CommonMeet | backend/linearscan.c:176-211 | lists with a common position meet, and without empty ranges only those |
| Ranges.EmptyMeets | backend/linearscan.c:176-211 | two lists that meet without a common position |
| ScanState.BubbleSort | backend/linearscan.c:332-349 | a permutation in order from the third element on, because the loop stops above position 1; two elements stay as they are |
| ScanState.RetireKeeps | backend/linearscan.c:315-330 | an interval that is over gives its register back and the scan's invariant stays |
| ScanState.EvictKeeps | backend/linearscan.c:427-436 | the new interval takes the register of the victim and the invariant stays |
| ScanState.EvictSafe | backend/linearscan.c:364-436 | the victim's register is safe for the new interval if and only if no fixed range meets the part of it that the victim does not reach |
| ScanState.EvictOnePosition | backend/linearscan.c:414-436 | for an interval of one position it is unsafe if and only if the victim is the first of two, is over, and the position is fixed |
| ScanState.LateOnePosition | backend/linearscan.c:414-436 | at the end of the scan, too, an interval of one position is unsafe exactly when it took the register of one that was over and the position is fixed |
| LinearScan.Allocator.Expire | backend/linearscan.c:315-330 | exactly the last intervals that are over leave; one that is over can stay only as the first of exactly two |
| LinearScan.Allocator.TryAlloc | backend/linearscan.c:284-311 | the first register that is not in use and whose fixed ranges the interval does not meet |
| LinearScan.Allocator.Choose | backend/linearscan.c:364-425 | exactly which interval is spilled, in terms of the constants, weights and ends: the first constant that may be and stands before every interval that ends no later, else the first interval of that kind, else itself, else the first that may be |
| LinearScan.Allocator.SpillAtInterval | backend/linearscan.c:353-439 | which interval is the victim, the registers after the spill, exactly when the new interval is safe, and the kept invariant |
| ScanRun.NoneSpilled | backend/linearscan.c:441-479 | if at each interval fewer of its class last than there are registers, one less when there are two, and it meets nothing fixed, no step of the run spills |
| LinearScan.Allocator.Step | backend/linearscan.c:441-479 | an interval gets the first register of its class that is neither in use nor fixed, if there is one, and nothing else is moved or spilled; only if all are refused an interval is spilled |
| LinearScan.Allocator.Allocate | backend/linearscan.c:441-548 | the scan is a run of such steps, and none spills when there is room for all; overlapping unspilled intervals of one class have different registers of the class, spilled are exactly those in the list, and an interval respects the fixed ranges of its register unless it must not be spilled, took the register of a spilled interval that ends before it does, and a fixed range meets what is left of it then, and exactly then it does not |
| LinearScan.FixedRangeMissed | backend/linearscan.c:441-479 | an input on which the exception occurs |
| AvlTree.HeightBound | utils/avl.h:55 | below 2^64 items no path reaches AVL_MAX_HEIGHT |
| AvlTree.RotateRepairs | utils/avl.c:131-184 | a rotation restores exact balance factors and keeps the items in order |
| AvlTree.InsertRepairs | utils/avl.c:94-187 | one rotation at the deepest uneven ancestor is enough, and its subtree gets its old height back |
| AvlTree.DeleteRepairs | utils/avl.c:296-384 | a step of the way up after a deletion stops exactly when the subtree has kept its height |
| AvlTree.RemoveWithRight | utils/avl.c:255-291 | the leftmost node of the right subtree takes the place of the deleted one; only its old place has lost a level |
| AvlTable.Table.Find | utils/avl.c:60-79 | the node with the key, NULL exactly if there is none |
| AvlTable.Table.Descend | utils/avl.c:99-111 | where the key belongs, the last uneven node above it, and a path that fits the array |
| AvlTable.Table.Rotate | utils/avl.c:131-184 | the links and factors written in place hold the rotated tree, all other cells stay |
| AvlTable.Table.BumpAlong | utils/avl.c:125-129 | the factors on the way from the uneven node to the new one are moved |
| AvlTable.Table.Probe | utils/avl.c:85-191 | a duplicate or missing memory changes nothing; otherwise the items gain exactly the new one in its place, order and exact balance are kept, all addresses keep their items, and an unchanged generation means that every node has kept its place |
| AvlTable.Table.TakeOut | utils/avl.c:253-293 | the three ways of unlinking a node, and the stack that leads to the place that lost a level |
| AvlTable.Table.Unwind | utils/avl.c:295-384 | balance is restored along the stack and the items stay |
| AvlTable.Table.Delete | utils/avl.c:224-389 | the items lose exactly the one with the key, order and exact balance are kept, one cell is freed and all others keep their items |
| AvlTable.Table.Destroy | utils/avl.c:821-844 | every item is passed to the callback in order and every cell is freed |
| AvlTraverse.InsertionKeepsStack | utils/avl.c:185-190 | an insertion that leaves the generation alone leaves every traverser's stack right |
| AvlTraverse.Traverser.First | utils/avl.c:433-455 | the least item |
| AvlTraverse.Traverser.Refresh | utils/avl.c:393-417 | rebuilds the stack of the selected node by comparisons |
| AvlTraverse.Traverser.Next | utils/avl.c:577-625 | the item that follows the selected one in order, also after the table has changed |
| BitWords.LowestBit | utils/bitmap.c:487-505 | the binary search finds the lowest bit of a word |
| BitmapSet.CombineGood | utils/bitmap.c:510-968 | the merge of two sorted lists of non-zero blocks is sorted and has no zero block |
| BitmapSet.CombineMeaning | utils/bitmap.c:510-968 | the merged list stands for the intersection, difference, union or exclusive disjunction of the two sets |
| BitmapSet.Canonical | utils/bitmap.c:974-992 | two such lists that stand for one set are equal |
| BitmapCells.TakenOutLinked | utils/bitmap.c:86-110 | a block unlinked from both neighbours leaves a doubly linked list of the others |
| BitmapCells.PutInLinked | utils/bitmap.c:161-242 | a block linked between two neighbours |
| Bitmaps.Bitmap.FreeElt | utils/bitmap.c:86-110 | one block less, and the cursor still agrees with the list |
| Bitmaps.Bitmap.InsertAfter | utils/bitmap.c:218-242 | one block more after the given one |
| Bitmaps.Bitmap.LinkElt | utils/bitmap.c:161-212 | the block lands in order whichever side of the cursor it belongs to |
| Bitmaps.Bitmap.FindBit | utils/bitmap.c:326-356 | the block of the bit, NULL only if there is none; cursor and cached index agree |
| Bitmaps.Bitmap.SetBit | utils/bitmap.c:379-402 | the set gains exactly the bit; true exactly if it was not there |
| Bitmaps.Bitmap.ClearBit | utils/bitmap.c:360-375 | the set loses exactly the bit |
| Bitmaps.Bitmap.BitP | utils/bitmap.c:406-421 | whether the bit is in the set |
| Bitmaps.Bitmap.Copy | utils/bitmap.c:277-319 | the same list |
| Bitmaps.Bitmap.EqualP | utils/bitmap.c:974-992 | true exactly for equal sets |
| Bitmaps.Bitmap.FirstSetBit | utils/bitmap.c:469-506 | the least element |
| Bitmaps.Bitmap.AndOf | utils/bitmap.c:510-553 | the destination becomes the intersection, its list in order and its cursor right |
| Bitmaps.Bitmap.AndInto | utils/bitmap.c:557-595 | the same in place, also of a bitmap with itself |
| Bitmaps.Bitmap.AndComplOf | utils/bitmap.c:599-652 | the destination becomes the difference |
| Bitmaps.Bitmap.AndComplInto | utils/bitmap.c:655-688 | the same in place |
| Bitmaps.Bitmap.IorOf | utils/bitmap.c:692-788 | the destination becomes the union; true exactly if the set has changed |
| Bitmaps.Bitmap.IorInto | utils/bitmap.c:792-849 | the same in place, also of a bitmap with itself |
| Bitmaps.Bitmap.XorOf | utils/bitmap.c:853-916 | the destination becomes the exclusive disjunction |
| Bitmaps.Bitmap.XorInto | utils/bitmap.c:920-968 | the same in place, also of a bitmap with itself |
| DivCnst.FloorLog2 | opt/divcnst.c:13-35 | 2^t <= x < 2^(t+1), and -1 for zero |
| DivCnst.LowBitTest | opt/divcnst.c:37-43 | x equals x and -x exactly for powers of two |
| DivCnst.ExactLog2 | opt/divcnst.c:37-43 | the exponent of a power of two, -1 for every other number |
| DivCnst.ExpandMult | opt/divcnst.c:45-96 | the shift sequence computes the product modulo 2^32 and contains no multiplication when a constant power of two is there |
| DivCnst.ExpandDivmod | opt/divcnst.c:98-171 | the asr, lsr, add, asr sequence computes division rounded toward zero, for positive and negative constants |
| TreeHeight.Region.RunIsValue | opt/treeheight.c:211-342 | running a region gives every variable the value of its tree |
| TreeHeight.FoldMerge | opt/treeheight.c:150-205 | combining any two leaves first does not change the result modulo 2^32 |
| TreeHeight.UsedElsewhereIsRoot | opt/treeheight.c:225-300 | what is used outside the region is a root |
| TreeHeight.RootExactly | opt/treeheight.c:269-281 | a variable is a root if and only if it is used, and not just by one instruction of the region with the same operation |
| TreeHeight.EndsOutside | opt/treeheight.c:88-118 | no end of the tree under an operand is a variable with such a single use: each comes from before the region or is a root |
| Huffman.LightestFirstIsBest | opt/treeheight.c:156-205 | combining the two lightest first keeps the leaves, and no other tree over them has a smaller weighted path length |
| Huffman.EqualWeightsLowest | opt/treeheight.c:156-205 | over n leaves of one weight the height is the logarithm of n rounded up, and no tree with as many leaves is lower |
| TreeBalance.Balancer.Flatten | opt/treeheight.c:85-119 | the leaves are exactly the ends of the tree of one operation under the operand, from left to right; they are worth the operand and can all be used |
| TreeBalance.Balancer.Merge | opt/treeheight.c:156-205 | the emitted code computes the root from the leaves by the tree that combines the two lightest each time, the first of equals first, and gives the root its value |
| TreeBalance.BuiltBest | opt/treeheight.c:136-205 | for a balanced root no other tree over the ends has a smaller weighted path length, and over ends of one weight the height is the least |
| TreeBalance.Balancer.Balance | opt/treeheight.c:136-208 | the recursion through other roots ends, leaves the root balanced, and balances no root that it does not need |
| TreeBalance.BalanceRegion | opt/treeheight.c:211-342 | the new code gives every root, and everything used outside, its old value, computes each root from exactly the ends of its tree by such a best tree, defines every operand before its use, and computes the sums first, with only the products that they need |

## Left out

- SsaCorrectness.ArgCarriesLastWrite: of several parallel edges between two blocks the source fills only the phi operand of the first, and so does the model; `cleanup_cfg` (IR/cfg.c:950-1000) merges such edges before.
- SplitEdges.SplitCriticalEdges: a redirected edge keeps its number instead of getting a fresh one, so that old and new edges can be compared; blocks are numbered in the order of the block list.
- LcmCorrectness.LazyCodeMotion: local properties, the iteration limit and the creation of the temporaries are not modelled; the facts per block are inputs with the conditions that the source's computation gives them.
- SccpSolver.Solver.Evaluate: array cells, addresses and floating point are not modelled, nor the rewriting pass after the solver; a shift amount is taken modulo 32 and INT_MIN divided by -1 wraps.
- SccpSoundness.RunsAreRight: runs read only variables that have been written or are never defined, which is what SSA construction gives.
- BackpatchGen.Generator.VisitCond: type conversion, constant folding of expressions, array indexing and calls are atomic steps; the values of variables come from an oracle.
- ColoringGraph.Ifg.AssignColors: the fatal error for a register that may not be spilled is the result false; spill slots, inserting spill code and the repetition after it are left out.
- ColoringGraph.Ifg.BuildArcs: which pairs interfere comes from liveness and is an input; sets of nodes and moves are values, and a loop over one takes its elements in any order where the source takes them in ascending order.
- MpInt.SetU32: the array must have room for the digits, as every caller provides.
- ScanState.BubbleSort: the order of three or more elements is proved from the third on, which is all that holds.
- LiveRanges.Interval.Scan: the source walks over the code once for all registers, the model once for each; liveness at the ends of blocks is an input, and note_lr_begin and note_lr_end are left out.
- LinearScan.Allocator.Allocate: the intervals come sorted by their beginning (the source calls qsort); the spill slot is left out; when nothing may be spilled the source uses a stale entry, here the result is false.
- AvlTable.Table.Probe: the two mirrored branches of the source are one method with a direction; the address of the new node is an argument, NULL when there is no memory; items are compared by an integer key.
- AvlTable.Table.Delete: the count is assumed to fit size_t before the call.
- Bitmaps.Bitmap.AndOf: destination and sources are different bitmaps, as the three-operand forms demand; freed blocks are not reused.
- Bitmaps.Bitmap.AndComplInto: the operand is another bitmap; the source's loop goes on from a block that it has just freed when both are one.
- DivCnst.ExpandDivmod: a constant of magnitude one is left alone, as in the source.
- TreeBalance.BalanceRegion: integer additions and multiplications of one block; the order of equal elements under qsort is left open; an operand that occurs twice in an instruction is opened twice, as in the source, so the new code can be longer than the old.
- The previous-item and copying operations of the balanced tree, bitmap_count_bits and bitmap_ior_and_compl follow the patterns shown here and would only add easy members.
- Destruction of SSA form, dead code elimination, copy propagation, value numbering, inlining, loop passes, code printing, and memory reuse through free lists.
