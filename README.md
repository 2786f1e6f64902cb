# Double-tree TSP approximation, modelled in Dafny

This project models the two C++ implementations of the double-tree
2-approximation for the metric travelling salesman problem:

- `graph.cpp` / `tsp.cpp`: a `Graph` object and a `TSP` object.
  - `Graph` holds an n-by-n distance matrix and the list of the n(n-1)/2
    edges.
  - `TSP` fills its fields in four steps:
    1. Kruskal's algorithm with a union-find (`struct DSU`), stopping at
       n - 1 edges.
    2. A multigraph in which each tree edge is stored twice under two edge
       ids.
    3. An iterative Euler tour with an explicit stack and lazily deleted
       adjacency entries.
    4. A shortcut to a Hamiltonian cycle.
- `TSP_Approximatif.cpp`: the same algorithm written as free functions.
  - A global `parent`/`rankSet` union-find.
  - An edge list built from the matrix.
  - Adjacency vectors of neighbour indices.
  - A recursive Euler walk that erases the reverse entry with `std::find`,
    followed by `std::reverse` in `main`.
  - `calculateLength`, which closes a path back to its start.

## Modules

| file | module | contents |
|---|---|---|
| graph.dfy | `MetricGraph` | Edges, the `Graph` class and the loops of `generateRandomMetric`. |
| edge_sort.dfy | `EdgeSort` | Sorting edges by weight, the step both versions hand to `std::sort`. |
| forest.dfy | `SpanningForest` | Components of an edge list (`Label`), forests, spanning, and Kruskal's greedy pass (`Greedy`, with or without the early stop). Also proves that the result is a spanning tree of a complete graph. |
| disjoint_sets.dfy | `ParentForest` | The parent/rank forest both union-finds keep: roots, path compression and union by rank. Also proves that the forest tracks the components of the accepted edges. |
| walks.dfy | `Walks` | Walk lengths in the matrix, reversal, the first-occurrence shortcut and Hamiltonian cycles. |
| doubled_tree.dfy | `DoubledTree` | The lists `buildMultigraph` builds and the loop invariant of `findEulerTour`'s stack walk (Hierholzer's algorithm with lazy deletion). |
| neighbour_lists.dfy | `NeighbourLists` | The lists `buildEulerianGraph` builds and the pre- and post-condition of the recursive `dfs`. |
| tsp.dfy | `Tsp` | The `DSU` and `TSP` classes of `tsp.cpp`, with each loop as a method that has invariants. |
| approx.dfy | `Approx` | The functions of `TSP_Approximatif.cpp` and the computation in its `main`. |

### How the C++ state is modelled

- Objects whose fields the C++ updates in place are classes:
  - `Graph`, `TSP` and `DSU`;
  - the two global vectors of `TSP_Approximatif.cpp`, which become the
    class `UnionFind`.
- Their vectors are `seq` fields that the methods reassign.
- Vectors passed by reference to `dfs` are passed in and returned.
- Every `double` is a `real`.

## Model

| member | source | states |
|---|---|---|
| MetricGraph.Graph.constructor | graph.cpp:3 | A graph on n vertices starts with an n-by-n matrix of zeros and no edges. |
| MetricGraph.Graph.GenerateMetric | graph.cpp:15-24 | The new state:<br>- the list holds one edge for each pair i < j, in row-major order;<br>- the matrix holds the metric of the two points on both sides of the diagonal, and the diagonal is unchanged;<br>- the graph stays valid (symmetric, zero diagonal, each edge weighted by the matrix). |
| MetricGraph.FillLoops | graph.cpp:16-23 | The two nested loops leave the matrix and the list as `Filled` and `Weigh` describe after the last row. |
| MetricGraph.FillRow | graph.cpp:17-23 | The inner loop moves the matrix and the list from the start of row i to its end. |
| MetricGraph.FillStart | graph.cpp:15 | Before the loops, no cell has been written. |
| MetricGraph.FillCell | graph.cpp:21 | Writing d on both sides of the diagonal advances the described matrix by one column. |
| MetricGraph.ListCell | graph.cpp:22 | Appending edge (i, j, d) advances the described edge list by one column. |
| MetricGraph.FillNextRow | graph.cpp:16-17 | The matrix after the last column of row i is the matrix before row i + 1. |
| MetricGraph.AllFilled | graph.cpp:15-24 | After the loops:<br>- the matrix is symmetric and holds the metric for every pair;<br>- the matrix keeps its old diagonal;<br>- the list is the full pair list, and each edge carries its matrix entry. |
| MetricGraph.AllPairsShape | graph.cpp:16-22 | The pairs the loops list:<br>- there are n(n-1)/2 of them;<br>- they are exactly the pairs 0 <= a < b < n;<br>- they come in strictly increasing row-major order, so each pair appears once. |
| MetricGraph.PairsBeforeShape | graph.cpp:16-17 | The same facts for the pairs of the first i rows. |
| EdgeSort.SortByWeight | tsp.cpp:25-26 | The sort yields a list ordered by non-decreasing weight that is a permutation (same multiset) of the input. |
| EdgeSort.InsertByWeight | TSP_Approximatif.cpp:77 | Inserting an edge into a sorted list keeps it sorted and adds exactly that edge to the multiset. |
| EdgeSort.OfWeightConcat | tsp.cpp:25-26 | Picking out the edges of one weight commutes with joining lists. |
| EdgeSort.OfWeightNone | tsp.cpp:25-26 | A list whose edges are all heavier than w has no edge of weight w. |
| EdgeSort.InsertKeepsOrder | tsp.cpp:25-26 | Inserting an edge into a sorted list puts it after every edge of its own weight. |
| EdgeSort.SortIsStable | tsp.cpp:25-26 | The model's sort is stable: for every weight, the edges of that weight come out in their input order. |
| EdgeSort.SortKeepsEdges | TSP_Approximatif.cpp:77 | Sorting keeps the length and exactly the edges of the list. |
| SpanningForest.WeightPush | tsp.cpp:31 | Accepting an edge adds its weight to the tree's total weight. |
| SpanningForest.GreedyNext | tsp.cpp:28-33 | At edge k, the greedy pass:<br>- rejects the edge when its endpoints are in one component;<br>- otherwise accepts it, and ends there when the stop size is reached. |
| SpanningForest.LabelStep | tsp.cpp:15 | Adding edge (u, v) merges v's component into u's and leaves every other component unchanged. |
| SpanningForest.LabelRange | tsp.cpp:10 | Component names are vertices of the graph. |
| SpanningForest.LabelsMerge | tsp.cpp:29-30 | Accepting more edges never separates two vertices of one component. |
| SpanningForest.JoinedByEdge | tsp.cpp:29-30 | After an edge is accepted, its two endpoints are in one component. |
| SpanningForest.AcyclicAppend | tsp.cpp:29-30 | Accepting an edge that joins two components keeps the edge set acyclic. |
| SpanningForest.SameLabelSameSide | tsp.cpp:28-34 | A vertex set that no edge leaves contains either both or neither of two vertices in one component. |
| SpanningForest.ClosedSetIsEverything | tsp.cpp:28-34 | In a spanning edge set, a closed vertex set containing 0 contains every vertex. |
| SpanningForest.Vertices | tsp.cpp:27 | The set of vertices 0 .. n-1 has exactly n elements. |
| SpanningForest.ClassesStep | tsp.cpp:29-30 | Accepting an edge between two components removes exactly one component. |
| SpanningForest.ForestComponents | tsp.cpp:28-34 | A forest with m edges on n vertices has exactly n - m components. |
| SpanningForest.SpansOneClass | tsp.cpp:32 | An edge set spans the vertices if and only if it has a single component. |
| SpanningForest.TreeSize | tsp.cpp:32 | A forest on n >= 1 vertices has at most n - 1 edges, and it spans them if and only if it has exactly n - 1 edges. This is why the early break loses nothing. |
| SpanningForest.AcceptStep | tsp.cpp:29-33 | Accepting the first edge and continuing keeps the greedy outcome. |
| SpanningForest.AcceptPrefix | tsp.cpp:30 | A result that extends F with the accepted edge followed by later edges extends F with listed edges. |
| SpanningForest.AcceptJoins | tsp.cpp:29-30 | Once the accepted edge is in the result, every listed edge lies inside one component if the later ones do. |
| SpanningForest.RejectStep | tsp.cpp:29 | Rejecting the first edge keeps the greedy outcome. |
| SpanningForest.GreedyForest | tsp.cpp:28-34 | The greedy result:<br>- is acyclic;<br>- extends the start;<br>- adds only listed edges;<br>- either reaches the stop size or leaves every listed edge inside one component. |
| SpanningForest.KruskalSpanningTree | TSP_Approximatif.cpp:82-85 | On an edge list that covers every pair of n >= 1 vertices, with no stop or a stop at n - 1, the greedy result is a spanning tree with n - 1 edges. |
| SpanningForest.SortedListCovers | tsp.cpp:24-26 | The sorted complete edge list still covers every pair. |
| SpanningForest.KruskalResult | tsp.cpp:23-35 | Kruskal on a sorted list of edges over 0 .. n-1:<br>- returns an acyclic forest of listed edges;<br>- on the complete list, returns a spanning tree with n - 1 edges. |
| SpanningForest.LoneVertex | TSP_Approximatif.cpp:92-93 | A vertex that touches no edge is a component on its own. |
| SpanningForest.SpanningTouches | TSP_Approximatif.cpp:92-93 | In a spanning edge set, every vertex other than 0 is an endpoint of some edge. |
| ParentForest.Root | tsp.cpp:10 | Following parents ends at a root, and that root's rank exceeds the start's rank unless the two are the same. |
| ParentForest.Compress | tsp.cpp:10 | Pointing an element at its root keeps a forest and changes no element's root. |
| ParentForest.Link | tsp.cpp:14-16 | Hanging root b under root a of no smaller rank, with a's rank raised on a tie:<br>- keeps a forest;<br>- re-roots exactly b's tree to a. |
| ParentForest.SameRootsTrans | tsp.cpp:12 | Two finds in a row change no root. |
| ParentForest.Singletons | tsp.cpp:9 | Every element as its own parent tracks the edgeless graph. |
| ParentForest.TracksMerge | tsp.cpp:29 | A union that re-roots one side's tree to the other root makes the forest track the edges plus e. |
| ParentForest.LinkByRank | TSP_Approximatif.cpp:64-66 | Linking by rank on a compressed forest is a successful union, as seen from the uncompressed forest. |
| ParentForest.UnitedTransfer | TSP_Approximatif.cpp:61-66 | A union judged on a compressed forest also holds for any forest with the same roots. |
| ParentForest.UniteTracks | tsp.cpp:29-30 | After unite on the endpoints of e:<br>- it merges if and only if e joins two components of the accepted edges;<br>- the forest then tracks the edges plus e if it merged, or the same edges if not. |
| Walks.WalkLengthConcat | tsp.cpp:74-75 | The length of two joined walks is the two lengths plus the step between them. |
| Walks.WalkLengthSnoc | tsp.cpp:97-98 | One more step adds the distance from the walk's last vertex. |
| Walks.ClosedWalkLength | TSP_Approximatif.cpp:131-133 | The two ways of measuring a closed cycle agree:<br>- explicitly adding the wrap edge back to the start (`calculateLength`);<br>- appending the start vertex (`tsp.cpp`). |
| Walks.Reversed | TSP_Approximatif.cpp:154 | The reversed walk has the same length and reads the walk back to front. |
| Walks.ReversedWalkLength | TSP_Approximatif.cpp:154 | In a symmetric matrix, reversing a walk keeps its length. |
| Walks.FirstOccurrencesShape | tsp.cpp:81-86 | The shortcut has no duplicates, holds exactly the walk's vertices, starts where the walk starts and is no longer than the walk. |
| Walks.FirstIndex | TSP_Approximatif.cpp:119-124 | Returns the position of a vertex's first occurrence. |
| Walks.FirstOccurrencesOrder | TSP_Approximatif.cpp:119-124 | The shortcut lists vertices in order of their first occurrence. |
| Walks.FirstIndexPrefix | TSP_Approximatif.cpp:119-124 | Extending a walk does not move the first occurrence of its vertices. |
| Walks.DistinctCard | tsp.cpp:79-86 | A duplicate-free walk has as many distinct vertices as entries. |
| Walks.FirstOccurrencesPermutation | tsp.cpp:78-86 | The shortcut of a walk over 0 .. n-1 that visits them all is a permutation of 0 .. n-1. |
| Walks.ShortcutCycle | tsp.cpp:78-88 | The shortcut closed by its start:<br>- is a walk over the vertices that starts at the tour's start;<br>- is a Hamiltonian cycle when the tour visits every vertex. |
| DoubledTree.SlotsPush | tsp.cpp:44-47 | The four pushes for edge i extend every list to the lists built from the first i + 1 edges. |
| DoubledTree.TotalUpdate | tsp.cpp:58 | Replacing one list changes the total number of entries by the difference in lengths. |
| DoubledTree.SlotsShape | tsp.cpp:42-48 | Each list:<br>- has twice the vertex's degree;<br>- holds only entries (x, k) where id k is a copy of a tree edge joining the vertex to x. |
| DoubledTree.SlotsComplete | tsp.cpp:42-48 | Both copies of each tree edge sit in both endpoints' lists. |
| DoubledTree.OpenInitial | tsp.cpp:40 | With no id used, each vertex has twice its degree in open endpoints. |
| DoubledTree.OpenAgree | tsp.cpp:69 | The count of open endpoints depends only on the used flags below the bound. |
| DoubledTree.OpenFlip | tsp.cpp:69 | Marking an id used closes its endpoints. |
| DoubledTree.OpenZero | tsp.cpp:60 | A vertex that no open id touches has no open endpoint. |
| DoubledTree.EulerStart | tsp.cpp:52-53 | The built lists with no id used, the stack [0] and an empty tour satisfy the loop invariant. |
| DoubledTree.StartParity | tsp.cpp:53 | Before any pick, every vertex has an even number of open endpoints. |
| DoubledTree.StartLazy | tsp.cpp:42-48 | The built lists satisfy the lazy-deletion invariant. |
| DoubledTree.SkipStep | tsp.cpp:57-58 | Popping a used entry keeps the lazy-deletion invariant. |
| DoubledTree.SkipMore | tsp.cpp:57-58 | Popping more used entries off one list keeps the lazy-deletion invariant and leaves the other lists untouched. |
| DoubledTree.PickStep | tsp.cpp:65-70 | Taking the unused entry at the back of the top's list, marking it used and pushing its other end:<br>- follows a tree edge;<br>- keeps the loop invariant. |
| DoubledTree.PickLazy | tsp.cpp:68-69 | A pick keeps the lazy-deletion invariant. |
| DoubledTree.PickWalk | tsp.cpp:70 | A pick keeps the stack a walk along tree edges. |
| DoubledTree.PickParity | tsp.cpp:69-70 | A pick moves the odd end of the open trail to the new top. |
| DoubledTree.PickMarks | tsp.cpp:69 | A pick records the id once. |
| DoubledTree.PickVisited | tsp.cpp:69-70 | A pick keeps the record of visited vertices. |
| DoubledTree.PopStep | tsp.cpp:60-62 | A top with an empty list moves to the tour, and the loop invariant holds. |
| DoubledTree.PopAnchor | tsp.cpp:60 | A top with an empty list has no open endpoints and is where the current trail started. |
| DoubledTree.PopParity | tsp.cpp:62 | Popping the anchor keeps the parity invariant. |
| DoubledTree.PopTour | tsp.cpp:61-62 | Popping keeps the stack and the tour walks, joined where they meet. |
| DoubledTree.PopVisited | tsp.cpp:62 | Popping a finished vertex keeps the record of visited vertices. |
| DoubledTree.AllUsed | tsp.cpp:54 | Once the stack is empty on a spanning tree:<br>- every id has been used once;<br>- the tour has 2m + 1 entries and visits every vertex. |
| DoubledTree.Relist | tsp.cpp:57-58 | Lists that keep the lazy-deletion invariant keep the loop invariant. |
| DoubledTree.EulerFinish | tsp.cpp:54-72 | With an empty stack, the tour is a closed walk from 0 along tree edges, with one step per used id. On a spanning tree:<br>- every id has been used;<br>- the tour has 2m + 1 entries;<br>- the tour visits every vertex. |
| NeighbourLists.MaxEnd | TSP_Approximatif.cpp:91-92 | No endpoint exceeds the result, and the result is an endpoint unless it is 0. |
| NeighbourLists.AdjacentSymmetric | TSP_Approximatif.cpp:95-98 | Adjacency in the tree is symmetric. |
| NeighbourLists.TrailConcat | TSP_Approximatif.cpp:110-112 | Two walks joined at adjacent vertices form a walk. |
| NeighbourLists.TrailReversed | TSP_Approximatif.cpp:154 | A walk read backwards is a walk. |
| NeighbourLists.AdjacentGrows | TSP_Approximatif.cpp:94-99 | More edges keep adjacencies. |
| NeighbourLists.PushedMirror | TSP_Approximatif.cpp:95-98 | One edge adds y to x's list as often as it adds x to y's. |
| NeighbourLists.PushedEven | TSP_Approximatif.cpp:95-98 | One edge adds an even number of entries to each list, and an even number of copies of the list's own vertex. |
| NeighbourLists.PushedJoins | TSP_Approximatif.cpp:95-98 | One edge adds to x's list only a vertex it joins to x. |
| NeighbourLists.OnceCount | TSP_Approximatif.cpp:95-96 | How often one round puts y in x's list. |
| NeighbourLists.NeighboursMirror | TSP_Approximatif.cpp:94-99 | In the built lists, y occurs in x's list as often as x occurs in y's. |
| NeighbourLists.NeighboursEven | TSP_Approximatif.cpp:94-99 | Every built list has even length. |
| NeighbourLists.NeighboursSelfEven | TSP_Approximatif.cpp:94-99 | Every built list holds its own vertex an even number of times. |
| NeighbourLists.NeighboursAdjacent | TSP_Approximatif.cpp:94-99 | Every entry of a built list is adjacent to the list's vertex in the tree. |
| NeighbourLists.NeighboursHold | TSP_Approximatif.cpp:94-99 | Each tree edge puts each endpoint in the other's list. |
| NeighbourLists.DoubledMirrored | TSP_Approximatif.cpp:89-101 | The returned lists are mirrored and all have even length. |
| NeighbourLists.ReverseEntry | TSP_Approximatif.cpp:106-109 | In mirrored lists, the popped neighbour w is adjacent to u, and w's list still holds the reverse entry u, so the erase always happens. |
| NeighbourLists.TakeShape | TSP_Approximatif.cpp:107-109 | The pop plus the erase:<br>- take exactly the entries w from u's list and u from w's list;<br>- change no other list;<br>- remove two entries in total. |
| NeighbourLists.TakeAt | TSP_Approximatif.cpp:107-109 | What one list lost, as a multiset. |
| NeighbourLists.EraseAt | TSP_Approximatif.cpp:109 | `erase` removes exactly the erased entry from the list's multiset. |
| NeighbourLists.TookMirrored | TSP_Approximatif.cpp:106-109 | Taking a reverse pair keeps the lists mirrored. |
| NeighbourLists.TookParity | TSP_Approximatif.cpp:106-109 | Taking the pair (u, w) moves the odd lists from (t, u) to (t, w). |
| NeighbourLists.ExploreStart | TSP_Approximatif.cpp:104-105 | On entry to dfs(u), the loop invariant holds. |
| NeighbourLists.ShrinksChain | TSP_Approximatif.cpp:110 | Lists only lose entries, and every list that dfs took from, other than u's, ends empty. |
| NeighbourLists.SeenChain | TSP_Approximatif.cpp:110 | Every list taken from belongs to a vertex pushed by then. |
| NeighbourLists.ExploreStep | TSP_Approximatif.cpp:105-111 | One round of dfs(u)'s loop keeps the loop invariant and decreases the number of entries. |
| NeighbourLists.ExploreEnd | TSP_Approximatif.cpp:112 | When u's list is empty, pushing u completes dfs(u)'s postcondition. |
| NeighbourLists.Untaken | TSP_Approximatif.cpp:105 | A list the walk never took from keeps each neighbour's list non-empty. |
| NeighbourLists.DoubledSize | TSP_Approximatif.cpp:92-93 | There are at most n lists for a tree on 0 .. n-1. |
| NeighbourLists.AllTaken | TSP_Approximatif.cpp:153 | On a spanning tree, once dfs(0) has emptied 0's list, every list is empty. |
| NeighbourLists.TourCovers | TSP_Approximatif.cpp:153 | On a spanning tree, dfs(0) takes every entry and pushes every vertex. |
| NeighbourLists.TourReaches | TSP_Approximatif.cpp:153 | On a spanning tree, each vertex has been pushed once every list is empty. |
| NeighbourLists.WalkReversed | TSP_Approximatif.cpp:154 | A walk from s to v, reversed, is a walk from v to s over the same vertices. |
| NeighbourLists.PushFour | TSP_Approximatif.cpp:95-98 | The four push_backs append the edge's entries to every list and add four entries. |
| Tsp.DSU.constructor | tsp.cpp:9 | Every element is its own root and every rank is 0. |
| Tsp.DSU.Find | tsp.cpp:10 | find with path compression:<br>- returns x's root;<br>- x then points at that root;<br>- every parent is either unchanged or the element's root;<br>- no root and no rank changes. |
| Tsp.DSU.Unite | tsp.cpp:11-18 | unite:<br>- returns true if and only if the two roots differed;<br>- returns false with no root changed;<br>- returns true after a union by rank of the two roots. |
| Tsp.DSU.LinkRoots | tsp.cpp:14-16 | The lower-rank root (b on a tie) is hung under the other, whose rank grows on a tie. |
| Tsp.ScanEdges | tsp.cpp:27-34 | The loop over the sorted edges with a fresh DSU returns Kruskal's greedy selection with the stop at n - 1, and its total weight. |
| Tsp.ScanFrom | tsp.cpp:28-34 | The same loop on a DSU that tracks the edgeless graph. |
| Tsp.ScanStep | tsp.cpp:29-33 | One iteration:<br>- keeps the DSU tracking the accepted edges and the weight equal to their total;<br>- ends the loop only when the greedy pass is done;<br>- otherwise leaves the rest of the pass unchanged. |
| Tsp.UniteEdge | tsp.cpp:29 | unite on e merges if and only if e joins two components of the accepted edges, and the DSU tracks the result. |
| Tsp.WalkSum | tsp.cpp:74-75 | The accumulation loop adds the walk's length to its start value. |
| Tsp.SkipUsed | tsp.cpp:57-58 | Only used entries are popped, only from w's list, until that list is empty or ends with an unused id. |
| Tsp.Finish | tsp.cpp:60-62 | Moving the finished top to the tour keeps the loop invariant and shrinks the stack. |
| Tsp.Advance | tsp.cpp:63-70 | Following the unused id keeps the loop invariant and decreases the variant. |
| Tsp.EulerStep | tsp.cpp:55-71 | One turn of the loop keeps the loop invariant and decreases the variant. |
| Tsp.EulerWalk | tsp.cpp:52-72 | The stack walk returns a closed walk from 0 along tree edges, with one step per used id and each id used at most once. On a spanning tree:<br>- every id is used;<br>- the tour visits every vertex;<br>- the tour has 2m + 1 entries. |
| Tsp.TSP.constructor | tsp.cpp:21 | The object holds the graph, and every result is empty or zero. |
| Tsp.TSP.Kruskal | tsp.cpp:23-35 | `mst_edges` is Kruskal's greedy selection from the weight-sorted edge list and `mst_w` is its weight. It is:<br>- an acyclic forest of the graph's edges;<br>- a spanning tree with n - 1 edges when the graph lists every pair. |
| Tsp.TSP.BuildMultigraph | tsp.cpp:37-49 | One list per vertex holding both copies, 2i and 2i + 1, of each tree edge i, with every used flag false. |
| Tsp.TSP.FindEulerTour | tsp.cpp:51-76 | The tour is a closed walk from 0 along tree edges, with each id used once, and `euler_len` grows by its length. On a spanning tree:<br>- every id is used;<br>- the tour visits every vertex;<br>- the tour has 2m + 1 entries. |
| Tsp.TSP.BuildHamiltonianCycle | tsp.cpp:78-88 | The cycle is the tour's first occurrences closed by its first vertex, and it is a Hamiltonian cycle when the tour visits every vertex. |
| Tsp.TSP.BuildTour | tsp.cpp:92-93 | The tour is a walk along tree edges that starts and ends at 0, and `euler_len` is its length. On a spanning tree, the tour has 2m + 1 entries and visits every vertex. |
| Tsp.TSP.TourAndCycle | tsp.cpp:92-99 | The tour is a closed walk along tree edges from 0, `euler_len` is its length, the cycle is its shortcut closed at 0, and the returned length is the cycle's. On a spanning tree, the cycle is Hamiltonian. |
| Tsp.TSP.Run | tsp.cpp:90-99 | The four steps and the cycle's length:<br>- `mst_edges` is Kruskal's greedy selection and `mst_w` its total weight;<br>- the tour is a closed walk along tree edges from 0, and `euler_len` is its length;<br>- the cycle is the tour's shortcut closed at 0, and the result is its length.<br>On a generated graph:<br>- the tree spans with n - 1 edges;<br>- the tour has 2n - 1 entries;<br>- the cycle visits every vertex exactly once. |
| Approx.Resized | TSP_Approximatif.cpp:78-79 | `vector::resize` keeps a prefix and pads with the fill value. |
| Approx.UnionFind.constructor | TSP_Approximatif.cpp:53 | Both global vectors start empty. |
| Approx.UnionFind.Reset | TSP_Approximatif.cpp:78-80 | Both vectors are resized to n and every element becomes its own root. Old ranks are kept where they exist. |
| Approx.UnionFind.Find | TSP_Approximatif.cpp:55-58 | find:<br>- returns u's root, and u then points at it;<br>- no root and no rank changes. |
| Approx.UnionFind.Unite | TSP_Approximatif.cpp:60-68 | unite:<br>- returns true if and only if the roots differed;<br>- returns false with no root changed;<br>- returns true after a union by rank. |
| Approx.UnionFind.LinkRoots | TSP_Approximatif.cpp:64-66 | The lower-rank root (v on a tie) is hung under the other, whose rank grows on a tie. |
| Approx.MatrixEdges | TSP_Approximatif.cpp:72-75 | One edge per pair i < j, weighted by the matrix, n(n-1)/2 edges in all. |
| Approx.ListRow | TSP_Approximatif.cpp:74-75 | The inner loop lists row i. |
| Approx.ListEdges | TSP_Approximatif.cpp:72-75 | The two loops list exactly `MatrixEdges`. |
| Approx.Kruskal | TSP_Approximatif.cpp:70-86 | The result is Kruskal's greedy selection from the sorted pair list, with no early stop:<br>- an acyclic forest of the listed edges;<br>- on a non-empty matrix, a spanning tree with n - 1 edges;<br>- the union-find tracks its components. |
| Approx.UniteAll | TSP_Approximatif.cpp:82-84 | An edge is kept if and only if unite merges its endpoints' sets. The result is the greedy selection, and the union-find tracks it. |
| Approx.LargestEndpoint | TSP_Approximatif.cpp:91-92 | Returns the largest endpoint of the tree's edges (0 when there is none). |
| Approx.PushEdges | TSP_Approximatif.cpp:93-99 | The lists of the doubled tree, with four entries per edge. |
| Approx.BuildEulerianGraph | TSP_Approximatif.cpp:89-101 | The doubled tree's lists:<br>- four entries per edge;<br>- mirrored, and all of even length. |
| Approx.FindFirst | TSP_Approximatif.cpp:108 | `std::find` returns the index of the first x, or the end when x is absent. |
| Approx.TakeEdge | TSP_Approximatif.cpp:106-109 | The pop and the erase take a reverse pair (u, w) with w adjacent to u. The lists stay mirrored, lose two entries, and their odd lists move from (t, u) to (t, w). |
| Approx.Dfs | TSP_Approximatif.cpp:104-113 | On mirrored lists whose odd lists are those of the anchor s and of u, dfs(u):<br>- empties u's list and every list it took from;<br>- appends a walk of the tree from s to u, with one vertex more than half the entries taken. |
| Approx.DfsRound | TSP_Approximatif.cpp:105-111 | One round keeps dfs(u)'s loop invariant and takes entries. |
| Approx.RoundDone | TSP_Approximatif.cpp:110 | A round seen through the output vector keeps the loop invariant. |
| Approx.EulerTour | TSP_Approximatif.cpp:152-154 | dfs(0) and the reverse produce a closed walk of the tree from 0, which took every entry of the lists it passed through. |
| Approx.EulerToHamilton | TSP_Approximatif.cpp:116-126 | The first occurrences of the tour: each vertex once, in order of first occurrence, starting where the tour starts. |
| Approx.CalculateLength | TSP_Approximatif.cpp:129-135 | The length of the closed walk: the path's length plus the wrap edge back to its start. |
| Approx.TreeLength | TSP_Approximatif.cpp:158-159 | Returns the tree's total weight. |
| Approx.Approximate | TSP_Approximatif.cpp:149-161 | On a non-empty matrix:<br>- a spanning tree with n - 1 edges;<br>- a closed walk of the doubled tree from 0 that has 2n - 1 entries and visits every vertex;<br>- its shortcut is a Hamiltonian cycle starting at 0;<br>- the three lengths are computed as described. |

## Left out

- I/O and random input are left out:
  - console input and output, and the CSV export;
  - `generatePoints`, `generateGraph` and `euclidean`;
  - `main.cpp` and the kerdjidj_mohamedSeddik_zeghouf_samir.cpp variant.
- MetricGraph.Graph.GenerateMetric: the random points (`std::mt19937_64`) and `std::sqrt` become two parameters:
  - a point list;
  - an arbitrary function `metric`.

  The triangle inequality is not assumed.
- Floating point is not modelled. Every `double` sum is an exact `real`, so rounding and the order of additions play no part.
- The approximation ratio (cycle length at most twice the tree weight) is not proved. It needs the triangle inequality of the Euclidean metric.
- Tsp.TSP.Kruskal: does not state that the tree has minimum total weight. It states that the tree is the greedy selection from the sorted list, which is acyclic and spanning.
- Approx.Kruskal: does not state minimum total weight either, for the same reason.
- EdgeSort.SortByWeight: `std::sort` is not stable, so the order among edges of equal weight is unspecified. The model fixes one such order: its sort is stable (`EdgeSort.SortIsStable`), so equal weights keep their input order. The tree it selects is the tree for that order.
- Tsp.TSP.Run: requires a fresh object and G.n >= 1.
  - A second call of `run` would append to the vectors of the first call.
  - On an empty graph, `findEulerTour` reads `multAdj[0]` of an empty vector.
- Approx.Approximate: requires a non-empty matrix. With 0 points, `calculateLength` indexes `graph[0][0]` of an empty matrix.
- Approx.CalculateLength: requires a non-empty path. On an empty path, `path.size() - 1` wraps around.
- Approx.EulerToHamilton: requires every vertex of the tour to be below the tour's length, the size of the `visited` vector. A larger vertex would index out of range.
- Approx.BuildEulerianGraph: requires non-negative endpoints, since a negative index into `adj` is undefined.
- `std::stack` is a `seq`. Each `std::vector` is a `seq` field or value, so aliasing and capacity (`reserve`) are not modelled.
- The C++ `int` is unbounded here. The indices and counts stay far below 2^31 for any graph that fits in memory.
- Accessors need no model: `size`, `edges`, `distance`, `mstWeight`, `eulerLength` and `hamiltonianCycle` are read as fields.
- The ghost field `TSP.marked` records the order in which edge ids were used. It is proof state only.
