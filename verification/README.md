# Verified models of the Canvas graph engine

The Canvas view of this repository draws networks with two bundled JavaScript libraries, dagre
(`canvas/assets/dagre.js`) and cytoscape (`canvas/assets/cytoscape.js`), and is served by the web
framework `canvas/bottle.py`. This project models their hard algorithms in Dafny and proves what they
promise. Both bundles are single lines, so a citation of them names line 1, and the text beside it names
the bundle module and the function.

## What is modelled

* **Ranking** (dagre modules 25, 27, 28, 29; `Ranking`, `TreeLabels`, `Traversal`, `CutValues`,
  `CutValueInit`, `Pivot`, `PivotRuns`, `NetworkSimplex`, `Simplify`). Longest-path ranks, the tight feasible
  tree and the network simplex over it. Cut values are defined by the cut; the recurrence, the pivots, the
  length of runs and optimality at exit are proved against that definition.
* **Cycle removal** (modules 2, 5, 8; `Acyclic`, `BucketLists`, `GreedyRuns`, `GreedyFas`, `CycleRemoval`). Both
  feedback sets, the reversal and its undoing. The bucket lists are circular doubly linked lists that
  share one pool of links.
* **Ordering** (modules 14, 16 to 21; `CrossCount`, `ConflictResolution`, `ConstraintRuns`,
  `ConstraintOrder`, `ConstraintBreaks`, `EntrySort`, `LayerSort`, `Layerings`, `DepthFirst`, `FirstOrder`,
  `Ordering`, `Barycenters`). The accumulator tree against the quadratic definition of crossings, the first
  order, the sweeps, and which constraints survive the merging of entries.
* **Coordinates** (module 23; `VerticalAlignment`, `BlockOrder`, `Compaction`, `Placement`,
  `Boxes`, `Widths`, `Coordinates`, `StraightEdges`). Alignment into blocks, two passes over the block graph,
  balancing, and what they do for boxes and edges. Coordinates are reals.
* **Long edges** (module 12; `Normalize`) and **nesting** (module 22; `Hierarchy`).
* **graphlib** (modules 35, 43, 45; `PriorityQueue`, `Dijkstra`, `Reachability`, `StrongComponents`,
  `TarjanSearch`, `Walks`).
* **cytoscape** (modules 4, 24, 26, 37; `BellmanFord`, `Elements`, `StoreTurns`, `GraphStore`).
* **Request bodies** (`canvas/bottle.py`; `HexNumbers`, `ChunkedBody`, `ChunkedGrammar`).
* `Graphs` and `Sums` hold what several of them share.

Nodes are names; only their identity and, for the keys of undirected edges, their order matters. Where
JavaScript runs over the keys of an object, the model takes an arbitrary next element, so every result
holds for every order. Updates in place are updates of class fields. Ghost parameters and ghost results
carry what a proof needs to know about a run.

A fact that a proof only hands on is sometimes stated as `forall k :: Look(k) ==> ...` with the trivial
predicate `Look`; `assert Look(0)` then brings it into view. A large invariant is sometimes stated as an equation
with `true`, so that it is handed on whole.

## Findings

* `resolveConflicts` and `sort` do not always keep constrained nodes in order: a chain u, v, w with barycenters
  4, 5 and 0 comes out with v left of u (`ConstraintBreaks.ThreeInAChain`), and of two heads of one tail only one
  takes the tail in (`ConstraintBreaks.ThreeInAFork`). For numeric scores all constraints are kept whatever
  the barycenters and weights exactly if they are transitive and any two heads of one tail are constrained
  themselves (`ConstraintBreaks.AlwaysKeptIffBranchless`). `addSubgraphConstraints` constrains consecutive
  siblings only, so three clusters in a layer are enough to break it (`ConstraintBreaks.SiblingsAreKeptIffTwo`).
* `greedyFAS` does not see edges of weight 0. Two nodes with an edge of weight 0 one way and one of weight 5
  the other keep their cycle in every run (`CycleRemoval.CycleStays`). For weights of at least 0 every cycle
  that is left passes an edge of weight 0 that was not chosen; if no such edge lies on a cycle of the graph
  without directions, and so if all weights are positive, no cycle is left (`CycleRemoval.Run`).
* `restore` turns a number as an id into text and does not ask whether that text is taken: the element that
  has it is pushed out without being marked as removed (`GraphStore.NumberTakesPlace`). This is the only way
  in which `restore` breaks the store (`GraphStore.Store.Restore`).
* An edge may name an edge as its end. `remove` breaks the store exactly when such a named edge goes and the edge
  that names it stays (`GraphStore.Store.Remove`, `GraphStore.EdgeLosesEnd`), and whether `restore` then brings
  all back depends on the order of removal (`GraphStore.OrderDecides`).
* `findSmallestWidthAlignment` compares the distances between the centres of the outermost nodes and not the
  widths: it can prefer the wider of two assignments (`Widths.WiderIsPreferred`). Its choice is always the
  narrowest exactly if there are at most two nodes or all are of one width (`Widths.NarrowestIffEqual`).
* `simplify` raises a minlen of 0 to 1 (`Simplify.ZeroMinlenIsNotKept`); the merged problem is the
  original one with all ends a rank apart (`Simplify.FeasibleIffSeparated`).
* `findPath` does not end when the second node lies around the first (`Hierarchy.NeverMetAgain`). The layout
  does not get there with such an edge: `cytoscape-dagre` drops edges that end in parents, and without it
  `longestPath` fails before, as `asNonCompoundGraph` gives the parent no label.
* `sort` drops an entry without a barycenter whose place is never reached (`EntrySort.FarEntryIsLost`);
  after `resolveConflicts` this cannot happen (`LayerSort.ResolvedFits`).
* `_iter_chunked` survives short reads of a chunk's data but not of the CR LF after it
  (`ChunkedBody.IterChunked`), accepts a negative size as an empty chunk
  (`ChunkedGrammar.NegativeSizeIsAccepted`), and leaves trailers and the final CR LF unread. What it accepts is
  exactly the lax grammar of `ChunkedGrammar.AcceptsIffParses`; a chunk of it could have been sent by an encoder
  exactly if its size is not negative (`ChunkedGrammar.SendableIffNotNegative`).

## Model

| member | source | states |
|---|---|---|
| Ranking.LongestPath | canvas/assets/dagre.js:1 | module 28: after `longestPath` every edge of a DAG has slack at least 0, every node without outgoing edges has rank 0 and every other node is held up by a tight outgoing edge |
| Ranking.LongestPathDfs | canvas/assets/dagre.js:1 | module 28, its recursion: finished nodes are settled and stay as they are, whatever order the search takes |
| Ranking.LongestPathIsGreatest | canvas/assets/dagre.js:1 | the ranks are the greatest of all feasible rankings that keep the sinks at or below 0 |
| Ranking.TightTreeDfs | canvas/assets/dagre.js:1 | module 25 `tightTree`: the tree grows along tight edges only, and no tight edge leaves what has been searched |
| Ranking.TightTree | canvas/assets/dagre.js:1 | module 25: the count returned is the size of a maximal tight tree |
| Ranking.FindMinSlackEdge | canvas/assets/dagre.js:1 | module 25: an edge with exactly one end in the tree whose slack is least among those |
| Ranking.ShiftStaysFeasible | canvas/assets/dagre.js:1 | the shift by that slack makes the edge tight, keeps the tree tight and makes no slack negative |
| Ranking.GrowsIfTightCrossing | canvas/assets/dagre.js:1 | after each shift the tight tree is larger, so the loop ends |
| Ranking.FeasibleTree | canvas/assets/dagre.js:1 | module 25 `feasibleTree`: on a connected graph it ends with a spanning tree of tight edges and feasible ranks |
| TreeLabels.DfsAssignLowLim | canvas/assets/dagre.js:1 | module 27 `dfsAssignLowLim`: the labels of a finished search form nested or disjoint intervals, one block per call |
| TreeLabels.InitLowLimValues | canvas/assets/dagre.js:1 | module 27 `initLowLimValues`: on a spanning tree `isDescendant(u, r)` holds exactly when u lies in the subtree of r |
| TreeLabels.BlockIsRooted | canvas/assets/dagre.js:1 | labels of such a search make the tree a rooted tree whose edges are exactly those to parents |
| Traversal.DoDfs | canvas/assets/dagre.js:1 | modules 33, 40, 41: one step of the traversal lists exactly the subtree, children before parents or parents before children |
| Traversal.Dfs | canvas/assets/dagre.js:1 | modules 33, 40, 41 `postorder`/`preorder`: every tree node once, in the order asked for, whatever start list is given |
| CutValues.CutValueIsNet | canvas/assets/dagre.js:1 | the definition of a cut value (weight from the tail component to the head component minus weight back) as a signed net flow out of a subtree |
| CutValues.Telescope | canvas/assets/dagre.js:1 | the length of any edge is the signed sum of tree-edge lengths along the tree path between its ends |
| CutValues.CostIsCutValuesTimesLengths | canvas/assets/dagre.js:1 | for every ranking the total weighted length of all edges equals the sum over tree edges of cut value times tree-edge length |
| CutValues.NoNegativeCutIsOptimal | canvas/assets/dagre.js:1 | a tight spanning tree without negative cut values makes its ranking a minimum over all feasible rankings |
| CutValueInit.CalcCutValue | canvas/assets/dagre.js:1 | module 27 `calcCutValue`: the bottom-up recurrence gives the defined cut value, if the children's are right |
| CutValueInit.AccumulateKid | canvas/assets/dagre.js:1 | one step of that recurrence, at an edge to a child in the tree |
| CutValueInit.InitCutValues | canvas/assets/dagre.js:1 | module 27 `initCutValues`: run in postorder it stores the defined cut value at every tree edge |
| Pivot.NegativeCutHasEntry | canvas/assets/dagre.js:1 | a negative cut value leaves `enterEdge` a candidate from the head side to the tail side |
| Pivot.ExchangeKeepsTree | canvas/assets/dagre.js:1 | module 27 `exchangeEdges`: swapping the leaving for an entering edge across the cut gives a spanning tree again |
| Pivot.NewRanksAreShifted | canvas/assets/dagre.js:1 | module 27 `updateRanks`: the ranks that make the new tree tight are the old ones with one side of the cut shifted |
| Pivot.PivotKeepsFeasible | canvas/assets/dagre.js:1 | shifting by the least entering slack keeps all slacks at least 0 |
| Pivot.PivotCost | canvas/assets/dagre.js:1 | the cost changes by exactly the cut value times the entering slack |
| NetworkSimplex.LeaveEdge | canvas/assets/dagre.js:1 | module 27 `leaveEdge`: a tree edge of negative cut value, or none exactly if no cut value is negative |
| NetworkSimplex.EnterEdge | canvas/assets/dagre.js:1 | module 27 `enterEdge`: the interval test picks exactly the edges crossing back, and among them one of least slack |
| NetworkSimplex.UpdateRanks | canvas/assets/dagre.js:1 | module 27 `updateRanks`: in preorder from the root it makes every tree edge tight and leaves the root's rank alone |
| NetworkSimplex.ExchangeEdges | canvas/assets/dagre.js:1 | one pivot keeps the whole invariant (spanning, tight, feasible, exact intervals and cut values) and the cost changes as stated, never upward |
| NetworkSimplex.PivotOnce | canvas/assets/dagre.js:1 | one round of the loop: either no cut value is negative and nothing changes, or a tree edge of negative cut value makes way for an edge of least slack that leads back across the cut, with the ranks on one side shifted by that slack |
| NetworkSimplex.StopsAtOptimum | canvas/assets/dagre.js:1 | without negative cut values the current ranks are optimal |
| NetworkSimplex.Run | canvas/assets/dagre.js:1 | module 27 `networkSimplex`: the rounds made are a run of such swaps from the start tree, one a round, and the costs returned are those of its stages; it ends before the rounds given are over only at a tree without negative cut values, whose ranks are optimal; if every swap moves something, it ends by itself when the rounds exceed what the first cost lies above the least |
| PivotRuns.SwapCost | canvas/assets/dagre.js:1 | each swap changes the cost by the negative cut value of the leaving edge times the slack of the entering one |
| PivotRuns.MovesAreBounded | canvas/assets/dagre.js:1 | no run has more swaps of positive slack than its first cost lies above the cost of an optimal ranking |
| PivotRuns.RunIsBounded | canvas/assets/dagre.js:1 | so a run in which every entering slack is positive is no longer than that |
| Simplify.SimplifyEdges | canvas/assets/dagre.js:1 | module 29 `simplify`: one edge per joined pair, summed weight, largest minlen but at least 1, and the same cost for every ranking |
| Simplify.FeasibleIffSeparated | canvas/assets/dagre.js:1 | a ranking is feasible for the merged edges exactly if it is for the original ones and separates the ends of each by a rank |
| Simplify.MergingIsExact | canvas/assets/dagre.js:1 | if every minlen is at least 1 the two feasibilities are the same |
| Simplify.ZeroMinlenIsNotKept | canvas/assets/dagre.js:1 | with a minlen of 0 they are not: a flat ranking is lost |
| Simplify.RankMultigraph | canvas/assets/dagre.js:1 | modules 26 to 29 together, on a multigraph: the ranks are those at the end of a run of swaps on the merged edges, feasible for every original edge, and optimal among the rankings that separate all ends when the loop has stopped, which it does in time if every swap moves something |
| Acyclic.DfsFas.Dfs | canvas/assets/dagre.js:1 | module 2 `dfsFAS`, its recursion: an edge out of a finished node was collected exactly if it led into the stack, and leads to an earlier finish otherwise |
| Acyclic.DfsFasOf | canvas/assets/dagre.js:1 | module 2 `dfsFAS`: the collected edges are exactly those backward in one order of the nodes, each once, and each closes a cycle |
| Acyclic.ReverseAll | canvas/assets/dagre.js:1 | module 2 `run`: exactly the given edges are replaced by their reversals under new names, with marked labels that keep the old names |
| Acyclic.ReversedIsAcyclic | canvas/assets/dagre.js:1 | reversing such a set leaves no directed cycle |
| Acyclic.ForwardHasNoCycle | canvas/assets/dagre.js:1 | edges that all lead forward in some order form no cycle |
| Acyclic.Undo | canvas/assets/dagre.js:1 | module 2 `undo`: every marked edge is put back under its old name with an unmarked label, all others stay |
| Acyclic.UndoRestores | canvas/assets/dagre.js:1 | undoing what run did gives back every edge, name and label |
| CycleRemoval.Run | canvas/assets/dagre.js:1 | module 2 `run`, both ways, for weights of at least 0: with the depth-first choice no cycle is left and only edges on a cycle are reversed; with the greedy choice every cycle that is left passes an edge that weighs nothing and was not chosen, there is none if such edges lie on no cycle of the graph without directions, and so none if all weights are positive |
| CycleRemoval.RunThenUndo | canvas/assets/dagre.js:1 | run followed by undo is the identity on nodes and edges, for all weights of at least 0 |
| CycleRemoval.BridgesLeaveNoCycle | canvas/assets/dagre.js:1 | if no edge of merged weight 0 lies on a cycle of the graph without directions (its parallels taken for one with it), the reversed graph has no cycle |
| CycleRemoval.HeavyLeadForward | canvas/assets/dagre.js:1 | every cycle of the reversed graph passes an edge of the original one that was not chosen and weighs nothing together with its parallels |
| CycleRemoval.CycleStays | canvas/assets/dagre.js:1 | module 8 on two nodes with an edge of weight 0 one way and one of weight 5 the other: in every run both nodes go as sinks, nothing is reversed and the cycle stays |
| CycleRemoval.OneSided | canvas/assets/dagre.js:1 | the program run on that graph |
| CycleRemoval.ForwardIsLeftAlone | canvas/assets/dagre.js:1 | the greedy choice collects nothing where all edges lead forward in some order, whatever they weigh |
| GreedyRuns.CollectedIffBackward | canvas/assets/dagre.js:1 | module 8, for weights of at least 0: what a run collects leads backward in the order of its removals, and of the arcs of positive weight exactly what leads backward is collected |
| GreedyRuns.GreedySplitsHeavy | canvas/assets/dagre.js:1 | the same for the edges of the multigraph: one order in which every listed edge leads backward and every other edge of positive merged weight forward; parallel edges are listed together |
| GreedyRuns.PositiveGreedyIsFas | canvas/assets/dagre.js:1 | with positive weights the listed edges are exactly those backward in one order |
| BucketLists.Lists.Unlink | canvas/assets/dagre.js:1 | module 5 `unlink`: relinking the neighbours takes exactly this entry out of its ring |
| BucketLists.Lists.Enqueue | canvas/assets/dagre.js:1 | module 5 `enqueue`: the entry leaves the list it is in and becomes the newest of the given one |
| BucketLists.Lists.Dequeue | canvas/assets/dagre.js:1 | module 5 `dequeue`: the oldest entry, or nothing if the ring is empty |
| BucketLists.CutIsLinked | canvas/assets/dagre.js:1 | the links of all rings still form the queues after an entry is cut out |
| BucketLists.AppendIsLinked | canvas/assets/dagre.js:1 | and after one is spliced in behind the sentinel |
| GreedyFas.BuildSums | canvas/assets/dagre.js:1 | module 8 `buildState`: parallel edges merged into one of their summed weight, incoming and outgoing weights of every node, and bounds for the buckets |
| GreedyFas.BucketExists | canvas/assets/dagre.js:1 | module 8 `assignBucket`: the bucket index is in range, 0 exactly for nodes out of which nothing of weight leads, and the last exactly for the others into which nothing of weight leads |
| GreedyFas.FasState.RemoveNode | canvas/assets/dagre.js:1 | module 8 `removeNode`: the remaining entries hold their sums and buckets again, and the incoming edges are listed on request |
| GreedyFas.FasState.RemoveBest | canvas/assets/dagre.js:1 | module 8: with no sinks and sources left a node of the greatest difference of weights goes, and what enters it is collected |
| GreedyFas.FasState.DoGreedyFas | canvas/assets/dagre.js:1 | module 8 `doGreedyFAS`: all nodes are removed in a run as defined without buckets (sinks first, then sources, then a node of the greatest difference), and the results are exactly what that run collects, each once |
| GreedyFas.FullestMayGo | canvas/assets/dagre.js:1 | module 8: the highest non-empty bucket holds the nodes of the greatest difference of outgoing and incoming weight |
| GreedyFas.RunOn | canvas/assets/dagre.js:1 | one removal more continues the run, and the results hold exactly what it collects |
| GreedyFas.GreedyFasOf | canvas/assets/dagre.js:1 | module 8 `greedyFAS`, for weights of at least 0: the edges listed are exactly those whose merged arc some complete run collects, each once |
| CrossCount.AddEntry | canvas/assets/dagre.js:1 | module 16, inner loop: climbing the accumulator tree adds up exactly the weights at greater leaves, and keeps every tree node the sum of its leaves |
| CrossCount.CountInversions | canvas/assets/dagre.js:1 | module 16: the sum of weight products over inverted pairs, for any number of leaves |
| CrossCount.InversionsAreCrossings | canvas/assets/dagre.js:1 | inversions of the sorted entries are crossings of the edges |
| CrossCount.TwoLayerCrossCount | canvas/assets/dagre.js:1 | module 16 `twoLayerCrossCount`: equal to the quadratic definition, over all pairs whose orders are strictly inverted |
| CrossCount.CrossCount | canvas/assets/dagre.js:1 | module 16 `crossCount`: the sum of that over all adjacent layers |
| ConflictResolution.ResolveConflicts | canvas/assets/dagre.js:1 | module 19 `resolveConflicts`: no node twice, no node lost exactly if the constraints between these nodes are consistent; each entry's barycenter is the weighted mean over its nodes; nothing merged without constraints; for numeric scores the entries are the groups that a run of merges over some order of the nodes that agrees with the constraints ends with |
| ConflictResolution.DryQueue | canvas/assets/dagre.js:1 | module 19: when the source set runs dry, all entries have been taken exactly if some order agrees with all constraints |
| ConflictResolution.Resolver.HandleIns | canvas/assets/dagre.js:1 | module 19 `handleIn`: entries found out of order are merged, last found first |
| ConflictResolution.FollowsOneMore | canvas/assets/dagre.js:1 | one popped node continues the run of merges that module `ConstraintRuns` defines, with the entries to its left in the order in which they were popped |
| ConstraintOrder.BranchlessIsKept | canvas/assets/dagre.js:1 | modules 19, 21: if the constraints are transitive and any two heads of one tail are constrained themselves, every result has the two nodes of every constraint in order, for all barycenters, all positive weights and every order of popping |
| ConstraintOrder.TakeOneIn | canvas/assets/dagre.js:1 | module 19: one merge keeps the constraints between popped nodes, but for those from entries that are still to be looked at |
| ConstraintBreaks.ChainAlwaysBreaks | canvas/assets/dagre.js:1 | a chain a, b, c without a constraint between a and c: under the means and weights stated every result has b left of a |
| ConstraintBreaks.ForkAlwaysBreaks | canvas/assets/dagre.js:1 | one tail with two heads that are not constrained: under the means stated every result has one of them left of the tail |
| ConstraintBreaks.ThreeInAChain | canvas/assets/dagre.js:1 | the input u to v to w with barycenters 4, 5 and 0 and weights 1: w merges with v, and v comes out left of u |
| ConstraintBreaks.ThreeInAFork | canvas/assets/dagre.js:1 | the input u to p, u to q with barycenters 1, 0 and 0: the one popped second comes out left of u |
| ConstraintBreaks.AlwaysKeptIffBranchless | canvas/assets/dagre.js:1 | consistent constraints are kept by every result for all barycenters and positive weights exactly if they are transitive and any two heads of one tail are constrained themselves |
| ConstraintBreaks.SiblingsAreKeptIffTwo | canvas/assets/dagre.js:1 | module 13 constrains consecutive siblings of a layer: those constraints are always kept exactly if there are at most two siblings |
| ConflictResolution.Resolver.Step | canvas/assets/dagre.js:1 | module 19, loop body: one node without open constraints is taken; all records keep their invariant |
| ConflictResolution.MergedIsMean | canvas/assets/dagre.js:1 | module 19 `mergeEntries`: the merged barycenter is the weighted mean over both entries' nodes, also when a weight is 0 |
| ConflictResolution.DoConstraint | canvas/assets/dagre.js:1 | module 19 `handleOut`: in-degrees keep counting the open constraints, and a node is queued when its last one is done |
| EntrySort.ConsumeUnsortable | canvas/assets/dagre.js:1 | module 21 `consumeUnsortable`: entries are put out while their place has been reached |
| EntrySort.Sort | canvas/assets/dagre.js:1 | module 21 `sort`: sortable entries in barycenter order with the bias, the others interleaved; none is lost exactly if each place is within the count stated |
| EntrySort.DifferentPlacesFit | canvas/assets/dagre.js:1 | different places below the number of nodes meet that condition |
| EntrySort.FarEntryIsLost | canvas/assets/dagre.js:1 | an entry from too far right is dropped |
| LayerSort.SortLayer | canvas/assets/dagre.js:1 | modules 19, 20, 21 on one flat layer: the result is a rearrangement of the layer exactly if the constraints are consistent; without constraints it is in barycenter order; for numeric scores it is a result of a run of merges, and branchless constraints are all kept |
| LayerSort.ResolvedFits | canvas/assets/dagre.js:1 | what `resolveConflicts` hands on always leaves `sort` enough room |
| FirstOrder.InitOrder | canvas/assets/dagre.js:1 | module 18 `initOrder`: every node once in the layer of its rank, in the order of a depth-first search that tries its roots by rank |
| FirstOrder.InitState.Dfs | canvas/assets/dagre.js:1 | module 18 `dfs`: a node not visited is entered, and after it exactly the nodes that are reached from it without passing one entered before, each of them likewise |
| DepthFirst.AllSearched | canvas/assets/dagre.js:1 | when all successors of a node have been tried, what has been entered since is exactly what is reached from it past the nodes entered before |
| DepthFirst.EnteredBefore | canvas/assets/dagre.js:1 | in such an order what an edge from a node leads to comes before every later node of that node's rank |
| DepthFirst.ForestStartsPlanar | canvas/assets/dagre.js:1 | a graph in which no node has two predecessors starts without crossings |
| Ordering.Barycenter | canvas/assets/dagre.js:1 | module 14 `barycenter`: the weighted mean of the places of a node's ties to the fixed layer |
| Barycenters.ScoreIsMean | canvas/assets/dagre.js:1 | module 14: no score exactly without edges, no number exactly if they weigh nothing together; otherwise barycenter times weight is the sum of the places, each as often as its edges weigh |
| Barycenters.ScoreIsBetween | canvas/assets/dagre.js:1 | the barycenter lies between the least and the greatest place of the neighbours |
| Barycenters.SplittingChangesNothing | canvas/assets/dagre.js:1 | an edge may be split into parallel ones that weigh as much together: every score stays |
| Ordering.OrderGraph.SweepLayer | canvas/assets/dagre.js:1 | module 17: under consistent constraints one layer is rearranged, all others are untouched; without any it is sorted by the barycenters taken from the fixed layer; with constraints between its nodes and numeric barycenters it is what can come out of the merging for these, and keeps branchless constraints |
| Ordering.KeptByPlaces | canvas/assets/dagre.js:1 | what comes out for the nodes as read is what can come out for the barycenters by the places in the fixed layer, under the constraints whose two nodes lie in this one |
| Ordering.OrderGraph.Sweep | canvas/assets/dagre.js:1 | module 17 `sweepLayerGraphs`: every layer but the first in the direction of the sweep is such a rearrangement by the layer before it as that ends up, and the first stays |
| Ordering.OrderGraph.Order | canvas/assets/dagre.js:1 | module 17 `order`: under any consistent constraints it ends, three sweeps after the first of the least crossing count over all sweeps made, and assigns that layering; the first sweep goes on from a depth-first order and each other one from what the one before has left, and every layering tried, the final one too, is such a rearrangement |
| Ordering.OneMoreTried | canvas/assets/dagre.js:1 | one round of that bookkeeping |
| VerticalAlignment.VerticalAlign | canvas/assets/dagre.js:1 | module 23 `verticalAlignment`: each node is aligned with the first of its median neighbours that is free, without conflict and right of the last one used, or with none if there is none; the alignment is valid |
| VerticalAlignment.Alignment.OnePerLayer | canvas/assets/dagre.js:1 | a block has at most one node in a layer |
| VerticalAlignment.Alignment.AlignIsInjective | canvas/assets/dagre.js:1 | `align` is injective |
| VerticalAlignment.Alignment.AlignReaches | canvas/assets/dagre.js:1 | and onto: it is a permutation |
| VerticalAlignment.Alignment.AlignStaysInBlock | canvas/assets/dagre.js:1 | `align` leads down its block and from the last node back to the root |
| VerticalAlignment.LinkKeepsBlocks | canvas/assets/dagre.js:1 | aligning one more pair keeps blocks, cycles and the absence of crossings |
| BlockOrder.BlocksAreOrdered | canvas/assets/dagre.js:1 | the blocks of a valid alignment have one left-to-right order that every layer agrees with, so the block graph is acyclic |
| Compaction.BuildBlockGraph | canvas/assets/dagre.js:1 | module 23 `buildBlockGraph`: an arc between neighbouring blocks with the largest separation any layer asks for |
| Compaction.SepIsMirrored | canvas/assets/dagre.js:1 | module 23 `sep`: the separation of a pair is the same seen from the right |
| Boxes.SepIsRoom | canvas/assets/dagre.js:1 | module 23 `sep`, in widths: at that distance the right box begins the node separation after the left one ends (for two dummies the edge separation, for one of each their mean); a box lies around its coordinate, or beside it if it has a side label |
| Boxes.NoneOverlap | canvas/assets/dagre.js:1 | if no width and no separation is negative, no two boxes of a layer overlap, neighbours or not |
| Placement.PlaceLeft | canvas/assets/dagre.js:1 | module 23, first pass: every block at 0 or pushed right by an arc into it |
| Placement.PlacedLeftIsLeast | canvas/assets/dagre.js:1 | which is the least solution of all separations with no coordinate below 0 |
| Placement.PullRight | canvas/assets/dagre.js:1 | module 23, second pass: every block but those at the border is pulled right as far as its arcs allow, and none moves left |
| Coordinates.HorizontalCompaction | canvas/assets/dagre.js:1 | module 23 `horizontalCompaction`: both passes over the block graph, every node at its block's coordinate, and separation in every layer |
| Coordinates.RunAlignment | canvas/assets/dagre.js:1 | module 23, one of the four runs: each node is aligned with the first unblocked median of the neighbours given, and the blocks are compacted |
| StraightEdges.OnlyNeighborIsChosen | canvas/assets/dagre.js:1 | a node with one neighbour is aligned with it if there is no conflict and no edge before it ends at or right of that neighbour |
| StraightEdges.LoneEdgeIsStraight | canvas/assets/dagre.js:1 | if v and w are each other's only neighbours between their two layers, without conflict and crossed by no edge, `positionX` gives both the same coordinate |
| Coordinates.AlignCoordinates | canvas/assets/dagre.js:1 | module 23 `alignCoordinates`: each assignment is shifted as a whole so that its least or greatest coordinate meets that of the smallest; separation stays |
| Coordinates.FindSmallestWidthAlignment | canvas/assets/dagre.js:1 | module 23 `findSmallestWidthAlignment`: of the four the one that is least by what the code compares, the distance between the centres of the nodes with the outermost right and left edges |
| Widths.WiderIsPreferred | canvas/assets/dagre.js:1 | module 23: three nodes of widths 100, 0 and 100 for which the code prefers coordinates of extent 110 to coordinates of extent 101 |
| Widths.NarrowestIffEqual | canvas/assets/dagre.js:1 | what the code prefers is always the narrowest exactly if there are at most two nodes or all widths are equal |
| Coordinates.SortingKeepsDistance | canvas/assets/dagre.js:1 | if four values exceed four others by a gap, so do the two middle ones after sorting |
| Coordinates.MiddleOfFour | canvas/assets/dagre.js:1 | the sorted values: least, greatest, and the sum of the middle two |
| Coordinates.Balance | canvas/assets/dagre.js:1 | module 23 `balance`: the mean of the two middle coordinates keeps the separation |
| Coordinates.PositionX | canvas/assets/dagre.js:1 | module 23 `positionX`: the coordinates are balanced from four runs (by predecessors and by successors, over the layers as they are and flipped, each from the left and mirrored) shifted to the smallest; between any two neighbours of any layer there is room for both boxes and the separation, and with nothing negative no two boxes of a layer overlap |
| Normalize.LayoutState.NormalizeEdge | canvas/assets/dagre.js:1 | module 12 `normalizeEdge`: an edge over more than one rank gets one dummy per rank between its ends, linked in order; a short edge stays |
| Normalize.Run | canvas/assets/dagre.js:1 | module 12 `run`: every long edge and no other is split, the first dummies are listed, and every edge that is left leads from its rank to the next |
| Normalize.EdgesSpanOneRank | canvas/assets/dagre.js:1 | once no edge is left to be treated, every edge leads from its rank to the next |
| Normalize.OneSuccessor | canvas/assets/dagre.js:1 | module 12 `undo`: a dummy has exactly one edge out, to what follows it in its chain |
| Normalize.UndoChain | canvas/assets/dagre.js:1 | module 12 `undo`, one chain: its dummies and links go, the edge is back with its label |
| Normalize.WalkedIsExact | canvas/assets/dagre.js:1 | each long edge gets exactly one point per rank between its ends, in rank order, and its label's place if it has one on the way; nothing else in its label changes |
| Normalize.Undo | canvas/assets/dagre.js:1 | module 12 `undo`: nodes and edges are the original ones, and every label as stated |
| PriorityQueues.PriorityQueue.Add | canvas/assets/dagre.js:1 | module 45 `add`: a new key joins with its priority, a known one changes nothing |
| PriorityQueues.PriorityQueue.RemoveMin | canvas/assets/dagre.js:1 | module 45 `removeMin`: a key of least priority leaves, all others stay |
| PriorityQueues.PriorityQueue.Decrease | canvas/assets/dagre.js:1 | module 45 `decrease`: the priority is replaced, or refused exactly if it would grow |
| PriorityQueues.PriorityQueue.Min | canvas/assets/dagre.js:1 | module 45 `min`: a key of least priority, or the error exactly when the queue is empty |
| PriorityQueues.PriorityQueue.Priority | canvas/assets/dagre.js:1 | module 45 `priority`: what the queue holds for a key |
| PriorityQueues.PriorityQueue.Size | canvas/assets/dagre.js:1 | module 45 `size`: the number of keys held |
| PriorityQueues.ExchangeKeepsIndices | canvas/assets/dagre.js:1 | module 45 `_swap`: `_keyIndices` stays the inverse of the array, and what is held does not change |
| PriorityQueues.SiftUp | canvas/assets/dagre.js:1 | module 45 `_decrease`, one step over the heap with children 2i and 2i+1 of a zero-based array |
| PriorityQueues.SiftDown | canvas/assets/dagre.js:1 | module 45 `_heapify`, one step |
| PriorityQueues.RootIsLeast | canvas/assets/dagre.js:1 | in such a heap no priority is less than the root's |
| Dijkstra.RunDijkstra | canvas/assets/dagre.js:1 | module 35: the true shortest distance and a last step of a shortest path for every node; the error exactly if a negative edge can be reached |
| Dijkstra.UpdateNeighbor | canvas/assets/dagre.js:1 | module 35 `updateNeighbors`: a better distance is recorded, only ever for a key still queued and never refused by `decrease` |
| Dijkstra.Improve | canvas/assets/dagre.js:1 | recording a better distance keeps the invariant of the search |
| Dijkstra.WalksAreNoShorter | canvas/assets/dagre.js:1 | once all that is left is infinitely far, no walk is shorter than the recorded distance |
| TarjanSearch.Tarjan | canvas/assets/dagre.js:1 | module 43 `tarjan`: every node in exactly one component, each a maximal strongly connected set, and no edge from a component to a later one |
| TarjanSearch.TarjanRun.Dfs | canvas/assets/dagre.js:1 | module 43, its recursion: the invariant, and what the lowlink of a finished node means |
| StrongComponents.AboveIsComponent | canvas/assets/dagre.js:1 | what lies on the stack above a root of the search is a strongly connected component |
| StrongComponents.StayOnStack | canvas/assets/dagre.js:1 | a node whose lowlink is below its index reaches something below it and stays |
| StrongComponents.PopKeepsInvariant | canvas/assets/dagre.js:1 | handing out a component keeps the invariant |
| Reachability.ReachIsWalk | canvas/assets/dagre.js:1 | reachability by closed sets is reachability by walks |
| Hierarchy.Postorder | canvas/assets/dagre.js:1 | module 22 `postorder`: an interval encloses another exactly if its node is around the other or is it |
| Hierarchy.FindPath | canvas/assets/dagre.js:1 | module 22 `findPath`: the lowest common proper ancestor, and the path up to it and down again, parent by parent; it ends because the second node does not lie around the first |
| Hierarchy.NeverMetAgain | canvas/assets/dagre.js:1 | if the second node does lie around the first, the first loop stops at it and the second never ends |
| BellmanFord.Run | canvas/assets/cytoscape.js:1 | module 4 `bellmanFord`, directed: a negative cycle is reported exactly if one of non-loop edges can be reached from the root; otherwise the costs are the distances, infinite where nothing leads |
| BellmanFord.Round | canvas/assets/cytoscape.js:1 | module 4, one round: costs cover walks of one more edge, and a round without change has relaxed all edges |
| BellmanFord.Rounds | canvas/assets/cytoscape.js:1 | module 4: fewer rounds than nodes, ended early by the flag |
| BellmanFord.StillLowerMeansCycle | canvas/assets/cytoscape.js:1 | a cost that can still be lowered after all rounds betrays a reachable negative cycle |
| BellmanFord.CostsAreDistances | canvas/assets/cytoscape.js:1 | if no edge offers anything better the costs are the distances and no negative cycle can be reached |
| Walks.Shorten | canvas/assets/cytoscape.js:1 | without reachable negative cycles every walk can be cut to one with fewer edges than nodes, no longer than it |
| GraphStore.Store.AddToPool | canvas/assets/cytoscape.js:1 | modules 24, 37 `merge` of one element: appended, or in the place of the one with its id; the map stays the inverse of the array |
| GraphStore.Store.UnmergeOne | canvas/assets/cytoscape.js:1 | module 24 `unmergeOne`: the last element moves into the gap, and the map stays the inverse of the array |
| Elements.SwapOut | canvas/assets/cytoscape.js:1 | that step, on the array and the map |
| GraphStore.Store.RestoreOne | canvas/assets/cytoscape.js:1 | module 26 `restore`, one element: put in exactly unless its id is empty or a text that is taken, or an end is missing, numbers being turned into text; the store stays consistent exactly unless the id is a number whose text is taken and the element is put in |
| GraphStore.Store.Restore | canvas/assets/cytoscape.js:1 | module 26 `restore`: the removed ones take their turns, nodes before edges, and data and pool are what those turns make of them; the store stays consistent exactly if no turn puts in an element whose id is a number with its text taken |
| StoreTurns.ClashLoses | canvas/assets/cytoscape.js:1 | module 26: such a turn leaves an element that is neither pooled nor marked as removed |
| GraphStore.NumberTakesPlace | canvas/assets/cytoscape.js:1 | the number 5 restored with the text "5" pooled: it takes the place of that element, which is not marked as removed |
| GraphStore.Store.MarkAll | canvas/assets/cytoscape.js:1 | module 26 `remove`, what goes: the elements and all edges that end in nodes among them, each once, nodes behind in the order they come and edges in front, the last marked first |
| GraphStore.Store.Remove | canvas/assets/cytoscape.js:1 | module 26 `remove`: exactly those leave the pool, and every list holds its pooled edges once per end and nothing else; the store stays consistent exactly if no edge that goes is named as an end by an edge that stays |
| StoreTurns.CutIffNamed | canvas/assets/cytoscape.js:1 | that condition: an end of a pooled edge is missing exactly where an edge names an edge that is gone |
| GraphStore.EdgeLosesEnd | canvas/assets/cytoscape.js:1 | an edge e from an edge f: removing f leaves e pooled with an end that is not |
| Elements.DetachEdge | canvas/assets/cytoscape.js:1 | taking an edge out of both lists, for a loop twice out of the same one |
| GraphStore.RemoveThenRestore | canvas/assets/cytoscape.js:1 | restoring what was removed gives back the pool, element for element, exactly if the edges among it that others name as ends come before those others; the store is consistent again then |
| StoreTurns.AllComeBackIffEndsFirst | canvas/assets/cytoscape.js:1 | that condition, for every order in which what was removed is restored |
| GraphStore.OrderDecides | canvas/assets/cytoscape.js:1 | two edges of which one names the other: removed in one order both come back, in the other order one stays out |
| ChunkedBody.DecodeInvertsEncode | canvas/bottle.py:1134-1159 | decoding any list of non-empty chunks encoded by section 4.1 of RFC 7230, with sizes in digits of either case, with extensions and with size lines no longer than the buffer size, gives the body back and leaves what follows the last size line |
| ChunkedBody.IterChunked | canvas/bottle.py:1134-1159 | the loop does what `Decode` says under every way of cutting reads, both on success and on error, and refuses a body exactly if besides that the two bytes after a chunk come torn |
| ChunkedBody.ReadHeader | canvas/bottle.py:1138-1143 | a size line is read byte by byte up to its CR LF, and refused exactly if it is too long or never ends |
| ChunkedBody.ReadData | canvas/bottle.py:1149-1157 | the data of a chunk whatever the sizes of the reads, or all there is |
| ChunkedBody.ReadChunk | canvas/bottle.py:1149-1159 | one chunk with its end |
| ChunkedBody.SizeLineIsRead | canvas/bottle.py:1138-1147 | the size of an encoded chunk is found in its line, before extensions and with surrounding space removed |
| ChunkedBody.LineLengthIsFirst | canvas/bottle.py:1139-1143 | a line ends at the first CR LF |
| HexNumbers.SizeIffRead | canvas/bottle.py:1146 | digits are read as a number exactly if it is their positional value, by a table of the digit characters in either case |
| HexNumbers.HexIsReadBack | canvas/bottle.py:1146 | every number has digits, in letters of either case, that are read back as it |
| HexNumbers.ParseIsBlind | canvas/bottle.py:1146 | a text with any of its letters in the other case has the same value |
| HexNumbers.ReadIffGrouped | canvas/bottle.py:1146 | texts of digits with single underscores between them have a value, and no others |
| HexNumbers.AllFormsAreRead | canvas/bottle.py:1146 | space, a sign, a prefix 0x or 0X, such a text and space again are read as its number with that sign |
| ChunkedBody.WholePairsAreNotTorn | canvas/bottle.py:1158-1159 | a stream that answers reads of two bytes whole tears no end of a chunk |
| ChunkedBody.IterBody | canvas/bottle.py:1126-1132 | as many bytes as announced, or all there are |
| ChunkedBody.Store | canvas/bottle.py:1161-1176 | the parts are stored in order across the switch to a temporary file, which happens exactly if they exceed the limit |
| ChunkedBody.ReadBody | canvas/bottle.py:1161-1176 | the stored body is what `Decode` makes of the input, read from its start |
| ChunkedBody.ReadEncodedBody | canvas/bottle.py:1134-1176 | an encoded body is stored as it was sent, exactly unless the stream tears the end of a chunk |
| ChunkedGrammar.AcceptsIffParses | canvas/bottle.py:1134-1159 | the input is accepted exactly if it is a list of chunks of a lax grammar (sign, prefix, underscores and space around the size, any extension, a size below 0 going with no data), a terminating size line and a rest |
| ChunkedGrammar.ParsedIsDecoded | canvas/bottle.py:1134-1159 | and what it is decoded to are the data of those chunks and that rest |
| ChunkedGrammar.SendableIffNotNegative | canvas/bottle.py:1134-1159 | a parsed chunk is one that the encoder sends, up to the form of its size, exactly if its size is not negative |
| ChunkedGrammar.NegativeSizeIsAccepted | canvas/bottle.py:1146-1159 | the input with the size line -1: accepted as a chunk without data |

## Left out

- NetworkSimplex.Run: takes the number of rounds, because nothing in the code rules out endless pivots of slack 0; of the others there are only as many as the cost can fall (`PivotRuns.MovesAreBounded`). The empty graph is not ranked.
- CycleRemoval.Run: weights are integers of at least 0. The condition on edges of weight 0 is shown to suffice and not to be necessary: a graph without cycles is left alone whatever it weighs (`CycleRemoval.ForwardIsLeftAlone`), and on other graphs it depends on all weights together which of the unseen edges a run turns. The names it invents are required not to be in use, as the counter behind them is global to the program.
- CycleRemoval.RunThenUndo: nothing happens between the two operations; `Acyclic.Undo` alone is stated for any labels in between.
- Ordering.OrderGraph.Order: sorts flat layers; the constraints that clusters cause are a parameter, so `addSubgraphConstraints`, border nodes and the recursion into clusters are not part of it.
- LayerSort.SortLayer: says of scored layers with constraints what can come out for numeric barycenters and positive weights; with entries that have no barycenter it states the rearrangement alone.
- VerticalAlignment.VerticalAlign: takes the conflicts as any set; `findType1Conflicts` and `findType2Conflicts` are not modelled.
- Hierarchy.FindPath: `parentDummyChains`, which walks the path by ranks, is not modelled.
- Normalize.Undo: the places of nodes are a map beside the nodes; nothing else of the graph changes between the two operations.
- Dijkstra.RunDijkstra: weights are reals; rounding is not modelled.
- BellmanFord.Run: models the directed mode; in the undirected mode the final check looks at each edge one way only. `pathTo` is not modelled.
- GraphStore.Store.Restore: ids are given (none is generated), and ids that are neither text nor number count as empty; compound parents, events and styles are left out.
- GraphStore.Store.Remove: is called on pooled elements of a consistent store, as its effect on others depends on whether their id is in use again; children of compound parents are left out.
- ChunkedBody.IterChunked: hands out its parts as a list; the number format is that of Python 3 on ASCII bytes, without digits and spaces of other scripts.
- ChunkedBody.ReadBody: the announced length and the chunked flag are parameters; headers are not parsed.
- Parts of dagre without hard properties: the nesting graph, rank normalisation, border segments, coordinate rotation, self edges, label placement.
- The rest of cytoscape (rendering, events, styles, selectors, animation, force-directed layouts, random and iterative algorithms) and the rest of bottle (routing, templates, WSGI adapters, cookies, static files).
- The native tools under `src/`, and the shell scripts.
