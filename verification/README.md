# Four classroom algorithms, modelled in Dafny

This project models four small C programs from a design-and-analysis-of-algorithms course. Each one becomes its own Dafny module, and the module proves what the program promises.

- `Tsp` (`tsp.dfy`) models the reduced-cost-matrix descent for the travelling salesperson problem:
  - `subtractReduce`, `reduce`, `resolveInfinity`, `calculateCost`, `getMinR`, `processor` and `TSP`;
  - the greedy single-line descent that never backtracks and always works on the root reduced matrix;
  - `TspSample` (`tsp_sample.dfy`) computes the documented five-city run through the model, level by level;
  - the descent is written over any costing of a partial path that behaves like `calculateCost` (finite exactly when the parent cost and the last edge are, and never below the parent cost on a matrix with no negative cell); `Tsp` passes it `calculateCost` on the root reduced matrix, and `CostInIsPathCost` proves that this costing behaves so.
- `BellmanFord` (`bellman_ford.dfy`) models single-source shortest paths:
  - `getVertexIndex` and `getVertexByName`;
  - `initSingleSource` and `relax`;
  - `bellmanFord` (|V| passes and then the negative-cycle check);
  - the parent walk of `viewPath` and `viewAllPaths`, as pure route functions.
- `OptimalStorage` (`optimal_storage.dfy`) models optimal tape storage:
  - the merge sort by program length (`merge`, `sort`);
  - round-robin placement onto tapes (`store`, `optimal_store`);
  - retrieval times (`getRT`, `getMRT`).
- `MinMax` (`min_max.dfy`) models the divide-and-conquer `min_max_eval`.
- `Costs` (`costs.dfy`) holds the cost type shared by the two graph programs:
  - `Inf | Fin(int)` replaces the C sentinel `INT_MAX`;
  - `Inf` absorbs in the arithmetic `Add`, `Plus` and `Sub`, is the identity of `Min`, and is the top element of the ordering `Lt`/`Le`.

Modelling choices:
- Arrays become sequences.
- The C programs mutate matrices and arrays in place. Here they are pure functions that return the new value.
- Vertex pointers become indices.
- `path[]` in the TSP program becomes a map holding the entries actually written.
- A tape storage becomes a map from (tape, column) to the program stored there.

## Model

| member | source | states |
|---|---|---|
| MinMax.MinMaxEval | daa/assign_1_min_max/prog.c:18-41 | the result bounds every element of `elements[start..end]`, and both the minimum and the maximum occur in that range |
| MinMax.MinMaxEvalUnique | daa/assign_1_min_max/prog.c:18-41 | any pair that bounds the range and occurs in it is exactly what `min_max_eval` returns, so the result is the range minimum and maximum |
| MinMax.SingleElement | daa/assign_1_min_max/prog.c:23-24 | a one-element range gives that element as both minimum and maximum |
| MinMax.TwoElements | daa/assign_1_min_max/prog.c:25-32 | a two-element range gives the ordered pair: min ≤ max, and together they are the two elements |
| MinMax.SplitCombine | daa/assign_1_min_max/prog.c:33-39 | the extremes of a range are the smaller of the halves' minima and the larger of their maxima |
| MinMax.Sample | daa/assign_1_min_max/prog.c:82-90 | the documented input 2 6 4 7 8 gives 2 and 8 |
| OptimalStorage.MergeRunsFacts | daa/assign_2_optimal_storage/prog.c:41-52 | merging two runs keeps every program (multiset), gives a sorted result when both runs are sorted, and is stable when the left run is sorted (left first on equal lengths) |
| OptimalStorage.MergeCorrect | daa/assign_2_optimal_storage/prog.c:37-56 | `merge` of `[low..mid]` and `[mid+1..high]` permutes the slice, sorts it when both runs are sorted, and keeps equal lengths in their original order |
| OptimalStorage.MergeKeepsOutside | daa/assign_2_optimal_storage/prog.c:54-55 | cells outside `[low..high]` are not touched by `merge` |
| OptimalStorage.SortCorrect | daa/assign_2_optimal_storage/prog.c:68-79 | `sort(low, high)` leaves cells outside the range alone and makes the range a stable, length-sorted permutation of itself |
| OptimalStorage.SortIsInPlaceRecursion | daa/assign_2_optimal_storage/prog.c:71-75 | the sort equals the in-place recursion: sort the left half, then the right half, then merge them at `(low + high) / 2` |
| OptimalStorage.SortIsTheStableSort | daa/assign_2_optimal_storage/prog.c:68-79 | any sorted, stable reordering of the programs is exactly the result of `sort` |
| OptimalStorage.SortIdempotent | daa/assign_2_optimal_storage/prog.c:119 | sorting a sorted list changes nothing, so the second sort in `optimal_store` after `main`'s sort is harmless |
| OptimalStorage.Store | daa/assign_2_optimal_storage/prog.c:92-104 | program `i` is stored at tape `i % tapeCount`, column `i / tapeCount`, and no other cell is written |
| OptimalStorage.StoreCellsDistinct | daa/assign_2_optimal_storage/prog.c:96-101 | two different programs are given two different (tape, column) cells, so no program overwrites another and each is read back from its own cell |
| OptimalStorage.OptimalStore | daa/assign_2_optimal_storage/prog.c:117-123 | `optimal_store` sorts the first `progCount` programs stably by length and stores the sorted list round-robin |
| OptimalStorage.NestedIsWeighted | daa/assign_2_optimal_storage/prog.c:177-181 | the nested sums of `getRT` equal the closed form in which program `j` is counted `k - j + 1` times |
| OptimalStorage.GetRT | daa/assign_2_optimal_storage/prog.c:173-184 | `getRT(k)` is the weighted sum of the lengths of programs 0..k, and 0 for `k = -1` |
| OptimalStorage.GetMRT | daa/assign_2_optimal_storage/prog.c:196-198 | `getMRT` is the total retrieval time divided by the program count, using C's truncating division |
| OptimalStorage.TruncDiv | daa/assign_2_optimal_storage/prog.c:197 | C's integer division truncates toward zero: the quotient is the floor of a / b for a ≥ 0 and its ceiling for a < 0 |
| OptimalStorage.SortedMinimizesRetrieval | daa/assign_2_optimal_storage/prog.c:173-184 | a length-sorted list has a total retrieval time no larger than any permutation of it |
| OptimalStorage.OptimalStoreIsOptimal | daa/assign_2_optimal_storage/prog.c:117-123 | the order `optimal_store` produces on the whole list, for any number of tapes, is no worse than any other order of the same programs |
| OptimalStorage.StoreThreeOnTwo | daa/assign_2_optimal_storage/prog.c:96-101 | three programs on two tapes: tape 0 holds the first and third, tape 1 the second |
| OptimalStorage.Sample | daa/assign_2_optimal_storage/prog.c:283-303 | the documented input (5, 10, 3 on two tapes) gives MRT 12, sorted order pg3, pg1, pg2, tape 1 holding pg3 and pg2 and tape 2 holding pg1 |
| BellmanFord.GetVertexIndex | daa/assign_3_bellman_ford/prog.c:44-54 | the first index below `count` holding the needle, or -1 exactly when none does |
| BellmanFord.GetVertexByName | daa/assign_3_bellman_ford/prog.c:65-77 | the position of the first vertex among the first `count` with the given name (no earlier vertex has it), or none exactly when none of them has it; the position stands for the C's vertex pointer |
| BellmanFord.InitSingleSource | daa/assign_3_bellman_ford/prog.c:214-225 | every distance is infinite and every parent is none, except that the source is at distance 0 |
| BellmanFord.RelaxSpec | daa/assign_3_bellman_ford/prog.c:237-252 | only the edge's destination changes; its distance becomes the smaller of the old one and `dist[u] + w`; its parent becomes `u` exactly when that is strictly shorter |
| BellmanFord.RelaxFromBelow | daa/assign_3_bellman_ford/prog.c:242-249 | no distance goes up during a pass over the edges |
| BellmanFord.PassesBelow | daa/assign_3_bellman_ford/prog.c:270-272 | no distance goes up over any number of passes |
| BellmanFord.CheckFrom | daa/assign_3_bellman_ford/prog.c:274-287 | the check returns 1 exactly when no remaining edge can still shorten a distance, and 0 otherwise |
| BellmanFord.BellmanFord | daa/assign_3_bellman_ford/prog.c:266-288 | after V passes the status is 1 exactly when every edge satisfies `dist[v] ≤ dist[u] + w`, and 0 otherwise |
| BellmanFord.BellmanFordInvariant | daa/assign_3_bellman_ford/prog.c:266-272 | every finite distance is the weight of a walk from the source, every parent is the source of an edge into its child at no greater distance, and no distance exceeds its initial value |
| BellmanFord.ShortestOnSuccess | daa/assign_3_bellman_ford/prog.c:266-288 | on status 1 every vertex a walk reaches has a finite distance no greater than the walk's weight, and that distance is attained by a walk |
| BellmanFord.NoNegativeCycleOnSuccess | daa/assign_3_bellman_ford/prog.c:274-287 | on status 1 no cycle through a vertex reachable from the source has negative weight |
| BellmanFord.SettledPasses | daa/assign_3_bellman_ford/prog.c:270-272 | once no edge can be relaxed, further passes leave the map unchanged |
| BellmanFord.SuccessWithoutNegativeCycle | daa/assign_3_bellman_ford/prog.c:258-288 | when no cycle through a vertex reachable from the source has negative weight, the status is 1 (the "else return 1" half of the documented result) |
| BellmanFord.StatusOneIffNoNegativeCycle | daa/assign_3_bellman_ford/prog.c:258-288 | the status is 1 exactly when no cycle through a vertex reachable from the source has negative weight, so 0 exactly when such a cycle exists |
| BellmanFord.PassesExtendBound | daa/assign_3_bellman_ford/prog.c:270-272 | if every walk of at most k edges weighs no less than its end's distance, then after `count` more passes the same holds for walks of at most k + count edges |
| BellmanFord.ShortWalk | daa/assign_3_bellman_ford/prog.c:270-272 | without a reachable negative cycle, every walk from the source has a walk to the same vertex with fewer than V edges and no greater weight, which is why V passes suffice |
| BellmanFord.BoundedEdgeSettled | daa/assign_3_bellman_ford/prog.c:274-285 | once the distances are bounded by every walk of at most V edges and no reachable cycle is negative, no edge can still shorten a distance, so the final check does not return 0 |
| BellmanFord.RouteFrom | daa/assign_3_bellman_ford/prog.c:172-175 | a walk that succeeds follows parent links from its start to the source and meets the source only at its end |
| BellmanFord.ChainCons | daa/assign_3_bellman_ford/prog.c:172-175 | a vertex whose parent starts a chain to the source, and is not the source, starts a chain one step longer |
| BellmanFord.RouteIsTheChain | daa/assign_3_bellman_ford/prog.c:172-175 | the route to `dest` is some chain exactly when that chain is the parent chain from `dest` to the source of at most V steps |
| BellmanFord.CycleAfterRelaxIsSlack | daa/assign_3_bellman_ford/prog.c:242-249 | after a relaxation that shortens a distance, every cycle of parent links still holds a link whose edge could shorten its child further |
| BellmanFord.PassesKeepParents | daa/assign_3_bellman_ford/prog.c:266-272 | over any number of passes, every vertex other than the source with a finite distance has a parent, and every cycle of parent links holds such a slack link |
| BellmanFord.RouteFromReaches | daa/assign_3_bellman_ford/prog.c:172-175 | with no cycle of parent links, the walk from the end of a path of distinct vertices reaches the source before the fuel runs out |
| BellmanFord.RouteOnSuccess | daa/assign_3_bellman_ford/prog.c:161-179 | on status 1 the walk of `viewPath` from a vertex other than the source reaches the source exactly when the vertex has a finite distance, and an unreached vertex has no parent |
| BellmanFord.JustifiedParentsAreEdges | daa/assign_3_bellman_ford/prog.c:249 | every parent a run can produce is the source of a graph edge into its child |
| BellmanFord.RouteFollowsEdges | daa/assign_3_bellman_ford/prog.c:172-175 | every step of a route walks back along a graph edge |
| BellmanFord.AllRoutes | daa/assign_3_bellman_ford/prog.c:190-203 | `viewAllPaths` lists the route to every vertex except the source, each exactly once, in vertex order |
| BellmanFord.SampleRun | daa/assign_3_bellman_ford/prog.c:377-406 | the documented graph from vertex 0 gives status 1, distances 0 5 14 17 9 13 25 8 and parents - 0 5 2 0 4 2 0 |
| BellmanFord.SampleRoutes | daa/assign_3_bellman_ford/prog.c:408-434 | the documented routes, e.g. 3 <= 2 <= 5 <= 4 <= 0 |
| Tsp.SubtractReduce | daa/assign_6_tsp/prog.c:41-51 | row `index` (decision 0) or column `index` (decision 1) loses `r` from each finite cell; infinite cells and all other cells are unchanged |
| Tsp.SubtractReduceInverse | daa/assign_6_tsp/prog.c:41-51 | subtracting `-r` afterwards gives back the original matrix |
| Tsp.LineMin | daa/assign_6_tsp/prog.c:64-68 | the scan from `INT_MAX` gives a value no larger than any cell, and a finite result is one of the cells |
| Tsp.ScanMinIsMin | daa/assign_6_tsp/prog.c:64-68 | the left-to-right scan that keeps every strictly smaller cell ends on a value no larger than any cell or the start value, and equal to one of them |
| Tsp.LineMinInfinite | daa/assign_6_tsp/prog.c:69-72 | the scan stays infinite exactly when every cell of the line is infinite, so such a line is neither reduced nor counted |
| Tsp.GetMinRIsMin | daa/assign_6_tsp/prog.c:146-155 | the result of `getMinR` is one of the entries and is no larger than any entry |
| Tsp.GetMinRIsLineMin | daa/assign_6_tsp/prog.c:146-155 | `getMinR` (which starts at the first entry) agrees with the row scan (which starts at `INT_MAX`) |
| Tsp.ReduceRowsFromIsReference | daa/assign_6_tsp/prog.c:64-74 | the row pass reduces each row by its own minimum, one row at a time, leaving the others alone |
| Tsp.ReduceColumnsFromIsReference | daa/assign_6_tsp/prog.c:77-87 | the column pass reduces each column by its minimum in the row-reduced matrix |
| Tsp.ReduceMatrixIsReference | daa/assign_6_tsp/prog.c:61-92 | `reduce` leaves the matrix that reducing every row, then every column, by its minimum gives |
| Tsp.ReduceBoundIsReference | daa/assign_6_tsp/prog.c:61-92 | the returned bound is the sum of the row minima plus the sum of the column minima taken after the row pass; all-infinite lines count 0 |
| Tsp.ReduceFacts | daa/assign_6_tsp/prog.c:64-87 | after `reduce`, infinite cells are still infinite, finite cells are not negative, and every row and column that holds a finite cell holds a 0 |
| Tsp.ReduceBoundNonNegative | daa/assign_6_tsp/prog.c:61-92 | on a matrix with no negative cell the bound is at least 0 |
| Tsp.ResolveInfinity | daa/assign_6_tsp/prog.c:104-112 | for every consecutive pair (src, dest) of the path, row src, column dest and cell [dest][src] become infinite; every other cell is unchanged |
| Tsp.ResolveInfinityIdempotent | daa/assign_6_tsp/prog.c:104-112 | masking the same path twice is masking it once |
| Tsp.ResolveInfinityNonNegative | daa/assign_6_tsp/prog.c:104-112 | masking keeps a matrix free of negative cells |
| Tsp.CalculateCost | daa/assign_6_tsp/prog.c:125-136 | the cost is finite exactly when the parent's cost and the edge between the last two path vertices are finite |
| Tsp.CalculateCostIsReference | daa/assign_6_tsp/prog.c:125-136 | a finite cost is the parent's cost, plus the edge weight, plus the row and column minima of the masked matrix |
| Tsp.CalculateCostAtLeastParent | daa/assign_6_tsp/prog.c:125-136 | on a matrix with no negative cell the cost is never below the parent's cost |
| Tsp.CostInIsPathCost | daa/assign_6_tsp/prog.c:125-136 | `calculateCost` on the root reduced matrix, as `processor` uses it, is finite exactly when the parent cost and the last edge are, and on a matrix with no negative cell is never below the parent cost |
| Tsp.ChildCosts | daa/assign_6_tsp/prog.c:177-184 | every vertex other than the parent and not yet visited is costed along the path extended by it; every other vertex gets infinity |
| Tsp.LastIndexBelowIsLast | daa/assign_6_tsp/prog.c:188-191 | the index the loop settles on holds the value searched for, and no later entry holds it |
| Tsp.ChooseIsCheapest | daa/assign_6_tsp/prog.c:186-191 | the chosen index holds `getMinR`'s value, no index is cheaper, and every later index costs strictly more, so ties go to the highest index |
| Tsp.ChooseUnique | daa/assign_6_tsp/prog.c:188-191 | only one index is a minimum with nothing as cheap after it, so that index is the one chosen |
| Tsp.Processor | daa/assign_6_tsp/prog.c:172-206 | the visiting order stays within the vertices and grows by one vertex per level until every vertex has been counted |
| Tsp.ProcessorKeepsPrefix | daa/assign_6_tsp/prog.c:197-202 | the descent only appends: the entries of the order it was given are unchanged in the order it returns |
| Tsp.StepKeepsInvariant | daa/assign_6_tsp/prog.c:197-203 | one step picks an unvisited vertex other than the parent, links the parent to it, marks it visited and moves to a finite cost, never below the parent's on a matrix with no negative cell |
| Tsp.ChildTour | daa/assign_6_tsp/prog.c:201-203 | from a child state that keeps the invariant, the rest of the descent is a tour, and one promised from the child's cost is also promised from any lower parent cost |
| Tsp.ProcessorTour | daa/assign_6_tsp/prog.c:172-206 | from any reachable state the descent visits each remaining vertex once, links each vertex to the next, and ends on a finite cost no lower than where it started (no negative cell) |
| Tsp.ProcessorFirstChoice | daa/assign_6_tsp/prog.c:186-197 | the vertex appended at each level is the one the choice loop found |
| Tsp.ProcessorPicksCheapest | daa/assign_6_tsp/prog.c:177-197 | the vertex a level proceeds to is a candidate whose cost is no larger than any other candidate's and strictly smaller than any later candidate's |
| Tsp.StartVisited | daa/assign_6_tsp/prog.c:219-226 | at the start exactly the source vertex is marked visited |
| Tsp.Tsp | daa/assign_6_tsp/prog.c:218-231 | the visiting order starts at `src`, stays within the vertices, and has one entry per vertex (two when there is one vertex) |
| Tsp.TspSingleVertex | daa/assign_6_tsp/prog.c:177-205 | with one vertex nothing is a candidate and the result is infinite, the C `INT_MAX` |
| Tsp.TspVisitsEveryVertexOnce | daa/assign_6_tsp/prog.c:218-229 | with n ≥ 2 and finite off-diagonal edges, the order is a permutation of the vertices starting at `src`, `path[order[k]] = order[k+1]` for each k, and the cost is finite and (no negative weight) at least the root bound |
| Tsp.ReduceBoundFromMinima | daa/assign_6_tsp/prog.c:61-92 | given each row's minimum with a cell that holds it, the matrix after the row pass column by column, and each of its columns' minimum with a cell that holds it, the bound of `reduce` is the sum of all those minima |
| Tsp.ReduceFromMinima | daa/assign_6_tsp/prog.c:61-92 | from the same minima, every cell `reduce` leaves is the cell after the row pass lowered by its column's minimum, and the bound is the sum of the minima |
| Tsp.ResolveInfinitySnoc | daa/assign_6_tsp/prog.c:104-112 | masking a path one vertex longer is masking the shorter path and then the one new pair (its row, its column and its reverse cell) |
| Tsp.ProcessorStep | daa/assign_6_tsp/prog.c:177-205 | given a level's child costs, the index chosen from them and their minimum, the level links the parent to that index, appends it, marks it visited and goes on from it, or returns after the last vertex |
| TspSample.SampleRootReduced | daa/assign_6_tsp/prog.c:218-222 | `reduce` on the documented matrix gives the bound 25 and the root reduced matrix, cell by cell |
| TspSample.Sample03Cost | daa/assign_6_tsp/prog.c:125-136 | on the documented root matrix the path 1, 4 costs 25: the root bound, the reduced edge 0 and a masked matrix that is already reduced |
| TspSample.SampleLevel1 | daa/assign_6_tsp/prog.c:177-203 | at the first level the candidates 2, 3, 4, 5 cost 35, 53, 25, 31, so the descent links 1 to 4 and goes on from 4 at cost 25 |
| TspSample.SampleLevel4 | daa/assign_6_tsp/prog.c:177-205 | at the last level only city 3 is left, at cost 28, and the descent returns 28 with the order 1, 4, 2, 5, 3 |
| TspSample.Sample | daa/assign_6_tsp/prog.c:306-321 | the documented input (five cities, source 1) gives the cost 28, the route 1 => 4 => 2 => 5 => 3, and the links 1→4, 4→2, 2→5, 5→3 |

## Left out

- `main` in every program: the `scanf` parsing, the 1-based vertex numbers in the TSP program, and the printing of results.
- The printers `viewMap`, `view_storage`, the TSP `viewPath` and the `printf` parts of the Bellman-Ford `viewPath`/`viewAllPaths`. They only format output. The TSP `viewPath` also reads the `path` entry of the last vertex, which is never written.
- TSP `copy`: under value semantics every matrix is already a copy, so `copy` is the identity and has no member.
- `createGraph` and `createMap`: memory allocation, including the over-allocation of edge records. Sequences indexed by vertex position replace them.
- The `MAX = 50` buffer limits. They are not behaviour.
- Fixed-width integers. Every sum is an unbounded `int`. `INT_MAX` is a separate constructor `Inf` that absorbs additions, as described under the differences below.
- BellmanFord.ValidGraph: every member from `InitSingleSource` on requires that each edge names two vertices of the graph. In the C, `main` fills edge ends with `getVertexByName` (`daa/assign_3_bellman_ford/prog.c:319-320`), which gives `NULL` for a name not in the vertex list (prog.c:72-73). `getVertexIndex` then gives -1 (prog.c:52-53), and `relax` (prog.c:239-240) and the negative-cycle check (prog.c:275-276) read `distances[-1]`. That out-of-bounds read is not modelled; the model's edges always name existing vertices.
- BellmanFord.Route: the walk stops after |V| + 1 vertices and returns none, or when a parent is missing; in those cases the C loop would run forever or read through a null pointer. After a run with status 1 neither happens from a vertex with a finite distance (`RouteOnSuccess`). After status 0 a cycle of parent links can remain, and the model returns none where the C loop does not stop.
- MinMax.MinMaxEval: requires a non-empty range. With 0 elements `main` calls `min_max_eval(0, -1)` (`daa/assign_1_min_max/prog.c:57`). C's truncating division then leads to the call `min_max_eval(1, 0)`, which calls itself with the same arguments forever. The model does not reproduce that non-termination.
- OptimalStorage.GetMRT: requires at least one program. With `progCount = 0` the C divides by zero (`daa/assign_2_optimal_storage/prog.c:197`).
- OptimalStorage.Store: requires at least one tape. With `tapeCount = 0` the C takes `% 0` (`daa/assign_2_optimal_storage/prog.c:98`).
- OptimalStorage.OptimalStore: requires at least one tape, because it calls `store`.
- Tsp.TspVisitsEveryVertexOnce: proved only for matrices whose off-diagonal edges are all finite, which is what `main` reads. With infinite edges the descent may move to an infinite-cost vertex, or to a visited one on an all-infinite tie.
- Tsp.ProcessorPicksCheapest: states the choice among candidates only. When every entry is infinite the tie goes to the highest index of any kind, as the C loop does. No separate lemma covers that case.
- Any claim that the TSP descent finds an optimal tour. The program is a greedy descent without backtracking, and only what it does is stated.

## Differences from the C code

- Infinity. Both graph programs compute `INT_MAX + w` without a guard (Bellman-Ford at `relax` and in the final check; TSP in `calculateCost`).
  - That is signed overflow in C.
  - With a negative weight it would let an unreached vertex "reach" another.
  - Here `Inf + w = Inf`, so an unreached vertex never relaxes an edge, and a cost along an infinite edge stays infinite.
- TSP `visited`. `TSP()` sets only `visited[src]` before the descent; the other entries start uninitialised, and `processor` later sets `visited[minIndex]` for each vertex it moves to. The model starts the array as all-false except `src`.
- Bellman-Ford passes. The relaxation loop runs V passes, not the textbook V − 1. The model follows the code.
- TSP ties. Equal candidate costs go to the highest index, because the C loop keeps overwriting `minIndex`. The model follows the code.
- TSP matrix. Every level of the descent costs its candidates on the root reduced matrix, as the C passes it down unchanged. It does not use the reduced matrix of the chosen child.
