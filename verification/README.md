# krakow in Dafny

`krakow` is a hierarchical graph clustering: a variant of the Paris
algorithm with two exponents, `alpha` and `beta`. It takes a weighted
undirected graph on the nodes `0..n-1` and returns a dendrogram of `n - 1`
merge rows `[a, b, distance, size]`. The row at index `i` creates cluster
`n + i`.

The algorithm runs in four stages:

1. **Accounting.** One pass over the edges records:
   - the weighted degree `w[x]` of every node (a self-loop counts twice);
   - the total weight `wtot` (a non-loop edge counts twice, a self-loop once);
   - a size of 1 for every node.
2. **Chain loop.** A nearest-neighbour chain grows until two clusters are
   each other's nearest neighbours.
   - The distance between adjacent clusters is
     `min(w)^alpha * max(w)^beta / weight / wtot`.
   - Self-loops are skipped, and ties go to the smaller id.
   - A reciprocal pair is merged: the two nodes are contracted into the
     next synthetic id, and their edge weights, degrees and sizes are
     summed.
   - A node left without neighbours is retired as a connected component.
3. **Finisher.** It starts from the component retired last and joins the
   others to it, in the order they were found, at infinite distance.
4. **Reordering.** `reorder_dendrogram` stably sorts the rows by distance.
   It then renames every synthetic id after the new position of the row
   that creates it.

The model consists of these files:

| file | module | contents |
|---|---|---|
| outcomes.dfy | `Outcomes` | `Option` and `Result` |
| seqs.dfy | `Seqs` | duplicate-free sequences, `Range`, `Without`, `IndexOf` |
| graph.dfy | `Graphs` | the adjacency map; node removal and contraction |
| accounting.dfy | `Accounting` | the accounting pass and its agreement with the graph it builds |
| nearest.dfy | `Nearest` | the dissimilarity and the nearest-neighbour scan |
| dendrogram.dfy | `Dendrograms` | rows, components, sizes, distances |
| engine.dfy | `Engine` | one step of the chain loop, the loop invariant, and the loop itself |
| finisher.dfy | `Finisher` | the component finisher |
| reorder.dfy | `Reordering` | `reorder_dendrogram` |
| krakow.dfy | `Krakow` | the pipeline end to end |

The modelling choices are these:

- **Input.** The graph is given as:
  - the node enumeration order, which is a permutation of `0..n-1`;
  - the edge list, with each undirected edge once and an optional weight.
- **Numbers.**
  - Floats are modelled as `real`.
  - The exponents are modelled as `nat`.
  - A distance is `Finite(v)` or `Inf`.
- **Node order.** Live nodes are kept in insertion order, and each fresh
  synthetic id goes at the end. This keeps the chain seed faithful to
  `list(F.nodes())[0]`.
- **Chain loop.**
  - Termination is not proved. The loop takes a step bound (`fuel`) and
    reports `OutOfFuel` when the bound runs out.
  - If a step pops an id that is not a live node, the run ends in
    `NodeNotInGraph`. This is the exception `F.neighbors` would raise.
  - The `-1` "no neighbour" mark never reaches the chain. Every entry
    above the bottom was pushed as a neighbour of the entry below it, and
    a merge hands that edge on to the new node. So a live node popped
    above a non-empty chain always has a candidate (`Engine.MarkFree`).
    A failed run therefore names a real id, never the mark.

## Model

| member | source | states |
|---|---|---|
| Accounting.EdgeWeight | krakow/__init__.py:42-44 | an edge without a weight attribute gets weight 1, otherwise its own weight |
| Accounting.Connect | krakow/__init__.py:43-44 | storing an edge sets the weight of exactly the pair u-v in both directions and leaves every other entry alone |
| Accounting.Empty | krakow/__init__.py:39-40 | before the pass every node 0..n-1 is present with degree entry and no edge |
| Accounting.AddEdge | krakow/__init__.py:41-49 | one edge adds its weight to the degree of each endpoint, so twice to the endpoint of a self-loop, and touches no other node's degree |
| Accounting.Account | krakow/__init__.py:38-49 | the pass gives every node 0..n-1 a degree and a row, and the total weight is positive as soon as there is an edge |
| Accounting.ConnectFresh | krakow/__init__.py:41-44 | storing a new edge keeps the adjacency symmetric and adds its weight at exactly the two entries of the pair |
| Accounting.AccountGraph | krakow/__init__.py:41-44 | the graph built holds every input edge with its weight (1 when absent), no other edge, and is symmetric with positive weights |
| Accounting.AddEdgeGraph | krakow/__init__.py:41-44 | one step of the pass extends the stored edges by exactly the new edge |
| Accounting.LastEdgeFresh | krakow/__init__.py:41 | each undirected edge is enumerated once, so the last edge is not stored yet when it is reached |
| Accounting.RowSumShift | krakow/__init__.py:45-46 | adding c to one entry of a row adds c to that row's sum when the entry lies in range |
| Accounting.TotalShift | krakow/__init__.py:47-49 | when the rows of u and v each gain wt, the matrix total gains wt for u and again for v unless the edge is a self-loop |
| Accounting.AccountDegrees | krakow/__init__.py:39-49 | after the pass w[x] equals the weighted degree of x read off the graph (self-loop twice), and wtot equals the sum of all weight matrix entries (non-loop edge twice, self-loop once) |
| Accounting.AddEdgeDegrees | krakow/__init__.py:41-49 | one edge keeps the degrees and the total in agreement with the weight matrix |
| Accounting.AddEdgeRows | krakow/__init__.py:41-46 | a new edge adds its weight to the row sums of its endpoints and to the diagonal for a self-loop |
| Accounting.ZeroRowSum | krakow/__init__.py:39 | a node without edges has row sum 0, matching its initial degree |
| Accounting.ZeroTotal | krakow/__init__.py:40 | a graph without edges has total 0, matching the initial wtot |
| Graphs.RemoveNode | krakow/__init__.py:102-103 | `F.remove_node`: the node leaves the node order and its neighbours drop it, so the adjacency keys are the old ones minus that node |
| Graphs.RemoveAdjWeights | krakow/__init__.py:102-103 | removing a node drops every edge touching it, keeps every other edge and keeps symmetry |
| Graphs.RemoveNodeValid | krakow/__init__.py:120 | removing a node removes exactly that node from the node order, keeps the graph valid and other edges unchanged |
| Graphs.Contract | krakow/__init__.py:92-103 | a and b become u, appended last to the node order, and the adjacency keys are the old ones minus a and b plus u; u–x weighs W(a,x)+W(b,x) with no self-loop (proved in ContractEdges) |
| Graphs.ContractAdjWeights | krakow/__init__.py:92-103 | after contraction u reaches every other node with F[a][x] + F[b][x] (absent edge as 0), has no self-loop, a and b have no edge, other edges are unchanged |
| Graphs.ContractRowWeights | krakow/__init__.py:95-101 | the new node's row holds the summed weights and no self-loop |
| Graphs.ContractColumnWeights | krakow/__init__.py:95-101 | every other node's edge to the new node holds the summed weight |
| Graphs.ContractOtherWeights | krakow/__init__.py:92-103 | edges between nodes other than a, b and u are unchanged |
| Graphs.ContractGoneWeights | krakow/__init__.py:102-103 | the contracted nodes keep no edge |
| Graphs.ContractAdjSymmetric | krakow/__init__.py:92-103 | contraction keeps the adjacency symmetric with positive weights |
| Graphs.ContractNodes | krakow/__init__.py:92-103 | contraction replaces exactly a and b by u, appended last, and lowers the live count by one |
| Graphs.ContractValid | krakow/__init__.py:92-104 | the contracted graph is valid, its nodes are the old ones minus a and b plus u (last), one fewer than before |
| Graphs.ContractEdges | krakow/__init__.py:92-103 | the edge weights after contraction, as for ContractAdjWeights, on the graph |
| Graphs.ContractAdjOrder | krakow/__init__.py:95-101 | contracting a with b or b with a gives the same adjacency: the summed weights do not depend on which list is walked first |
| Graphs.ContractSymmetric | krakow/__init__.py:92-103 | contracting a with b or b with a gives the same graph |
| Nearest.Dissim | krakow/__init__.py:72-78 | min(w)^alpha · max(w)^beta / p / wtot over exact reals; never negative for non-negative degrees and positive for positive ones |
| Nearest.DissimSymmetric | krakow/__init__.py:72-78 | the dissimilarity does not depend on which cluster is named first, since it uses min and max of the degrees |
| Nearest.ParisBaseline | krakow/__init__.py:18-24 | with alpha = beta = 1 the dissimilarity is the Paris distance w[a] * w[v] / weight / wtot |
| Nearest.Scan | krakow/__init__.py:68-85 | the scan returns the non-self neighbour with the least dissimilarity, ties going to the smallest id, or (-1, inf) when there is none |
| Nearest.ScanOrderIndependent | krakow/__init__.py:70-84 | the pick depends only on which neighbours are scanned, not on the order networkx enumerates them |
| Nearest.NearestOf | krakow/__init__.py:68-85 | the pick among the live nodes is the nearest neighbour as defined above |
| Dendrograms.RepsCons | krakow/__init__.py:119-126 | the representatives and total size of components, split at the first component |
| Dendrograms.ChildrenAppend | krakow/__init__.py:90 | appending a row adds its two children to the children multiset |
| Dendrograms.RepsAppend | krakow/__init__.py:119 | recording a component adds its representative and its size |
| Dendrograms.SizeAppend | krakow/__init__.py:90-129 | appending a row leaves the size of every existing node unchanged |
| Dendrograms.OrderedAppend | krakow/__init__.py:90-107 | a row merging existing nodes whose size is the sum of theirs keeps the rows ordered with sizes that add up, and creates node n + i with that size |
| Engine.Seeded | krakow/__init__.py:62-66 | when the previous chain has run out, the step works on the fresh chain holding only the first live node in insertion order, `list(F.nodes())[0]`; otherwise on the current chain, whose entries below the top are all real ids |
| Engine.Merge | krakow/__init__.py:89-109 | a merge emits the row (a, b, d, s[a] + s[b]), sets w[u] = w[a] + w[b] and s[u] = s[a] + s[b], keeps the components and wtot, and advances the counter by one |
| Engine.Retire | krakow/__init__.py:117-123 | retiring records (a, s[a]) as a component, ends the chain, and leaves rows, counter and wtot alone |
| Engine.Step | krakow/__init__.py:65-123 | a step fails exactly when the popped id is not a live node, and never changes wtot |
| Engine.StepMerges | krakow/__init__.py:86-109 | when the nearest neighbour b of the popped a is the entry c below it, the step pops c and merges a with b, two distinct adjacent nodes at finite distance |
| Engine.TopMergeable | krakow/__init__.py:86-88 | a reciprocal pair is two distinct adjacent live nodes at finite distance |
| Engine.StepRetires | krakow/__init__.py:114-123 | a node alone in the chain without any non-self neighbour is retired as a component |
| Engine.StepExtends | krakow/__init__.py:110-116 | otherwise only the chain changes: it becomes ..., c, a, b, or a, b when a was alone |
| Engine.MergeWf | krakow/__init__.py:92-109 | a merge keeps the graph valid with degrees and sizes for exactly the live nodes, and lowers the live count by one |
| Engine.MergeKeys | krakow/__init__.py:106-107 | after a merge the degree and size maps cover exactly the live nodes, all below the counter |
| Engine.MergeReady | krakow/__init__.py:106 | after a merge every live node still has a degree for the dissimilarity |
| Engine.RetireWf | krakow/__init__.py:120-123 | retiring keeps the graph valid with degrees and sizes for exactly the live nodes, and lowers the live count by one |
| Engine.SumSizesAgree | krakow/__init__.py:107 | the live size total only depends on the sizes of live nodes |
| Engine.SumSizesAppend | krakow/__init__.py:107 | a new live node adds its size to the live total |
| Engine.SumSizesRemove | krakow/__init__.py:104-123 | removing a live node removes its size from the live total |
| Engine.MergePartition | krakow/__init__.py:90-109 | a merge moves its two children out of the live nodes into the children and adds the fresh id, so every id stays accounted for exactly once |
| Engine.MergeSum | krakow/__init__.py:107 | the merged size replaces the two children's sizes in the live total |
| Engine.MergeInv | krakow/__init__.py:86-109 | a merge keeps the loop invariant |
| Engine.ShapeStep | krakow/__init__.py:90-109 | a merge keeps every id live, retired or a child exactly once, with row i creating node n + i |
| Engine.SizedStep | krakow/__init__.py:90-107 | a merge keeps live sizes plus component sizes equal to the original n |
| Engine.ShapeMerge | krakow/__init__.py:90-109 | a merge keeps every id accounted for, one fewer live node, counter n + number of rows |
| Engine.SizedMerge | krakow/__init__.py:90-107 | the new node has the sum of its children's sizes, which leave the live total |
| Engine.RetireInv | krakow/__init__.py:117-123 | retiring keeps the loop invariant |
| Engine.ShapeRetireStep | krakow/__init__.py:119-123 | retiring keeps every id accounted for and lowers the live count by one |
| Engine.SizedRetireStep | krakow/__init__.py:119-123 | retiring keeps live plus component sizes equal to the original n |
| Engine.ShapeRetire | krakow/__init__.py:119-123 | moving a live node to the components keeps every id accounted for exactly once |
| Engine.SizedRetire | krakow/__init__.py:119-123 | the retired size leaves the live total and enters the component total |
| Engine.StepInv | krakow/__init__.py:65-123 | every successful step keeps the loop invariant |
| Engine.StepMergeStep | krakow/__init__.py:86-109 | a merging step keeps the loop invariant |
| Engine.StepRetireInv | krakow/__init__.py:114-123 | a retiring step keeps the loop invariant |
| Engine.StepExtendInv | krakow/__init__.py:110-116 | a step that only pushes keeps the loop invariant |
| Engine.ChainInv | krakow/__init__.py:111-116 | pushing ids back onto the chain keeps the loop invariant |
| Engine.StepMergeInv | krakow/__init__.py:86-109 | merging the reciprocal pair on top of the chain keeps the loop invariant |
| Engine.SeededMarkFree | krakow/__init__.py:62-66 | a fresh chain, holding one live node, is free of the mark, and so is a continued one |
| Engine.PushChain | krakow/__init__.py:111-116 | pushing an issued id that has a neighbour keeps the chain free of the mark |
| Engine.PopChain | krakow/__init__.py:86-87 | popping entries keeps the chain free of the mark |
| Engine.MarkNeverPushed | krakow/__init__.py:68-85 | a live node popped above a non-empty chain has a candidate, so its nearest neighbour is a real node and b = -1 is never pushed at line 113 |
| Engine.NeighbourKept | krakow/__init__.py:92-103 | after a merge, every other live node that had a neighbour still has one |
| Engine.ContractNeighbour | krakow/__init__.py:95-101 | an edge from x to a or b becomes an edge from x to u with positive weight; every other edge of x survives |
| Engine.StepMarkFree | krakow/__init__.py:65-123 | every successful step keeps the chain free of the mark |
| Engine.MergeMarkFree | krakow/__init__.py:86-109 | a merging step keeps the chain free of the mark |
| Engine.MergeChainMarkFree | krakow/__init__.py:87-109 | the chain left after a merge stays free of the mark, because its live entries keep their neighbours |
| Engine.PushMarkFree | krakow/__init__.py:110-116 | a pushing step keeps the chain free of the mark: the pushed b is a real node with a as its neighbour |
| Engine.StepFailsOnlyDead | krakow/__init__.py:65-70 | on a mark-free chain a step fails exactly when the popped id, which is never -1, names a node that is no longer live |
| Engine.Start | krakow/__init__.py:51-61 | the loop starts with all nodes live in their order, sizes 1, no chain, rows or components, and counter n |
| Engine.StartInv | krakow/__init__.py:51-61 | the loop invariant holds before the first step |
| Engine.StartWf | krakow/__init__.py:39-61 | the starting state is well formed |
| Engine.StartShape | krakow/__init__.py:55-61 | before any merge the live nodes are exactly 0..n-1 and the counter is n |
| Engine.StartSized | krakow/__init__.py:52 | before any merge the live sizes add up to n |
| Engine.SumSizesOnes | krakow/__init__.py:52 | n clusters of size 1 have total size n |
| Engine.RunChain | krakow/__init__.py:62-123 | a finished run leaves no live node, every id accounted for by rows and components whose sizes add up to n, and wtot unchanged; a run started on a mark-free chain never fails on the -1 mark |
| Finisher.Chain | krakow/__init__.py:127-131 | one row per remaining component, starting from the given cluster |
| Finisher.ChainClosed | krakow/__init__.py:127-131 | join i merges the previous join's node (the starting cluster for i = 0) with component i at infinite distance and records the running total size |
| Finisher.Finish | krakow/__init__.py:125-131 | the finisher adds one row fewer than there are components |
| Finisher.FinishRows | krakow/__init__.py:126-131 | the first join starts from the last component found, each join has infinite distance, joins component i, uses the previous join's node, and the last size is the total of all components |
| Finisher.SizeExtend | krakow/__init__.py:129 | appending joins does not change the size of existing nodes |
| Finisher.FinishJoin | krakow/__init__.py:128-129 | each join records the sum of its children's sizes |
| Finisher.FinishSized | krakow/__init__.py:125-131 | the joins only use existing nodes, sizes add up, and the root holds all components' sizes |
| Finisher.FinishRootSize | krakow/__init__.py:126-131 | the root's size is the total size of all components |
| Finisher.FinishPrefix | krakow/__init__.py:127-131 | after k joins every id is a child of one row, the cluster built so far, or a component still to be joined |
| Finisher.PoolStart | krakow/__init__.py:126 | before the first join every id is a child, the popped last component, or a remaining component |
| Finisher.PoolStep | krakow/__init__.py:128-131 | a join uses up the cluster built so far and the next component and creates the next id |
| Finisher.FinishAt | krakow/__init__.py:126-131 | join i pairs the accumulated cluster with component i |
| Finisher.FinishChildren | krakow/__init__.py:125-131 | once the finisher is done every id except the root is a child of exactly one row |
| Finisher.FinishIds | krakow/__init__.py:125-131 | the same, over the ids below the final counter |
| Reordering.BeforeOrder | krakow/__init__.py:138-141 | the lexicographic (distance, row index) order is a strict total order on rows |
| Reordering.BeforeTrans | krakow/__init__.py:138-141 | that order is transitive |
| Reordering.Insert | krakow/__init__.py:141 | inserting a row index adds it once and keeps the others |
| Reordering.SortedCons | krakow/__init__.py:141 | a row sorting before every element of a sorted list can head it |
| Reordering.InsertSorted | krakow/__init__.py:141 | inserting into a sorted list keeps it sorted |
| Reordering.SortRows | krakow/__init__.py:141 | the sort returns a permutation of its input |
| Reordering.SortRowsSorted | krakow/__init__.py:141 | the sort of distinct row indices is sorted by (distance, row index) |
| Reordering.SortedUnique | krakow/__init__.py:141 | two sorted permutations of the same indices are equal, so the stable sort has one possible result |
| Reordering.SortedHead | krakow/__init__.py:141 | sorted lists with the same elements share their first element |
| Reordering.SortedTail | krakow/__init__.py:141 | the tail of a sorted list is sorted |
| Reordering.Index | krakow/__init__.py:137-141 | `index` is a permutation of 0..n-2 sorted by distance, stably |
| Reordering.InIndex | krakow/__init__.py:141 | every row is emitted |
| Reordering.IndexDistinct | krakow/__init__.py:141 | no row is emitted twice |
| Reordering.Relabel | krakow/__init__.py:142-143 | the renaming maps ids to ids and leaves to leaves, synthetic ids to synthetic ids |
| Reordering.Unlabel | krakow/__init__.py:143 | the inverse renaming maps ids to ids |
| Reordering.UnlabelRelabel | krakow/__init__.py:142-143 | undoing the renaming of any id gives the id back |
| Reordering.UnlabelNode | krakow/__init__.py:143 | position t of the sorted order names the node created by row index[t] |
| Reordering.RelabelUnlabel | krakow/__init__.py:142-143 | renaming the un-renamed id gives the id back |
| Reordering.RelabelNode | krakow/__init__.py:143 | node n + i is renamed n + t where index[t] = i |
| Reordering.RelabelInverse | krakow/__init__.py:142-143 | the renaming fixes the leaves and is a bijection of the ids, with the inverse renaming on both sides |
| Reordering.Reorder | krakow/__init__.py:144-149 | the result has as many rows as the input |
| Reordering.ReorderAt | krakow/__init__.py:144-149 | row t of the result is input row index[t] with its children renamed |
| Reordering.ReorderRow | krakow/__init__.py:143-149 | the row that created node x appears at the position named by the new id of x |
| Reordering.ReorderRows | krakow/__init__.py:143-149 | the same, for every synthetic id: the renaming is consistent with the new row positions |
| Reordering.ReorderSorted | krakow/__init__.py:137-149 | the result's distances are non-decreasing and rows at equal distance keep their original order |
| Reordering.SizeRelabel | krakow/__init__.py:146 | a renamed node has the size the node had |
| Reordering.ReorderSizes | krakow/__init__.py:146-149 | renaming keeps every node's size, so sizes that add up still add up after reordering |
| Reordering.ReorderSortedInput | krakow/__init__.py:137-149 | a dendrogram already sorted by distance is returned unchanged |
| Reordering.RangeSorted | krakow/__init__.py:141 | for distances already in order the identity order is the sorted one |
| Reordering.RelabelFixed | krakow/__init__.py:142-143 | with the identity order the renaming is the identity |
| Reordering.ReorderIdempotent | krakow/__init__.py:136-149 | reordering a reordered dendrogram changes nothing |
| Krakow.ChildBound | krakow/__init__.py:61-131 | every child in the rows is older than the last row's node |
| Krakow.RootIsLast | krakow/__init__.py:130-131 | the one node no row uses as a child is the last node created |
| Krakow.AccountReady | krakow/__init__.py:38-52 | the accounting pass hands the loop symmetric weights and degrees over exactly 0..n-1 |
| Krakow.AccountPositive | krakow/__init__.py:47-49 | a graph with an edge has a positive total weight, so the divisions by wtot are defined |
| Krakow.ShapeDone | krakow/__init__.py:62-126 | with no live node left there is at least one component, rows plus components number n, and every id is a child or a component |
| Krakow.SizedDone | krakow/__init__.py:62 | with no live node left the components hold all n leaves |
| Krakow.FinishTree | krakow/__init__.py:125-131 | the finisher turns the loop's rows and components into a complete dendrogram |
| Krakow.LoopTree | krakow/__init__.py:62-131 | a finished loop followed by the finisher gives a complete dendrogram |
| Krakow.FinishRootLast | krakow/__init__.py:130-131 | the finisher's root is node n + rows - 1, which holds every leaf |
| Krakow.Cluster | krakow/__init__.py:18-131 | a successful clustering is a complete dendrogram: n - 1 rows merging older nodes, sizes adding up, the last node holding all n leaves, every other node merged exactly once; a failed run never reports the -1 mark |
| Krakow.TreeLabelled | krakow/__init__.py:143-146 | a complete dendrogram names only existing nodes, so the renaming is defined on it |
| Krakow.Krakow | krakow/__init__.py:18-149 | a successful run returns n - 1 rows sorted by distance with sizes adding up, and is the reordering of a complete dendrogram; a failed run never reports the -1 mark |

## Left out

- Graph plumbing: the copy or in-place choice (`copy_graph`) and the relabelling of nodes to integers are not modelled. The input is already the nodes `0..n-1`, in an enumeration order, plus an edge list.
- Floating point: `**`, division, rounding and overflow are modelled as exact `real` arithmetic with `nat` exponents. The distances the model compares are exact, so float ties and rounding behave differently.
- The numpy output array is modelled as a sequence of `Row` records, with node ids as `nat` and sizes as `nat` rather than float columns. `np.lexsort` is modelled as an insertion sort by (distance, row index). `Reordering.SortedUnique` shows that this order has exactly one sorted result, so any stable sort gives the same rows.
- Termination of the chain loop is not proved. It rests on the reducibility of the dissimilarity. `Engine.RunChain` takes a step bound and fails with `OutOfFuel` when it runs out, so `Krakow.Krakow` promises its properties only for a successful run.
- `Engine.Step`: the model does not show that the `NodeNotInGraph` error never happens. It does show that the error never names the `-1` mark (`Engine.StepFailsOnlyDead`, `Engine.RunChain`). The `b >= 0` test sits only on the empty-chain branch at line 114, but over exact reals a live node above a non-empty chain always has a candidate. In the code the mark could still be pushed at line 113 if every candidate's float distance overflowed to infinity, because line 84 would then keep `b = min(-1, v) = -1`. The model does not carry that case. What stays unproved is that the popped node is always live, which rests on reducibility like termination.
- Inputs with `n <= 1` are excluded (`Krakow.Krakow` requires n >= 2). The code fails on them: `cc.pop()` fails on an empty list, and the distance column of an empty array cannot be read.
- The asserts on `alpha >= 1` and `beta >= 1` are preconditions, not error paths.
- Accounting.Account: edge weights are required to be positive, self-loops included. A zero weight on an edge between two different nodes makes the code divide by zero when the scan reaches it. A self-loop is never a divisor, because the scan skips `v == a`, so the code accepts a zero-weight self-loop and the model does not. A negative weight is outside what the algorithm is for.
- Reordering.Reorder: requires at least one row and that every child id names a leaf or a row of the input. On an empty array the code fails reading the distance column, and a child id of 2|D| + 1 or more makes the renaming raise `KeyError`. The model does not carry these two error paths. `Krakow.TreeLabelled` shows that every dendrogram the clustering builds meets both conditions.
- After a merge the code keeps the rest of the chain and continues with it. It does not start a fresh chain. This is krakow/__init__.py:86-116. A new chain is seeded only when the chain is empty, at lines 62-66.
