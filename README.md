# Verified model of two small TSP solvers

The repository solves the travelling salesman problem on a distance matrix
in two ways:

- **`mstkruskal.py`, an approximate solver.** It builds a spanning tree of the complete graph with Kruskal's algorithm. The algorithm uses a union-find structure with path compression and union by rank. The solver then walks the tree in depth-first preorder from vertex 0 and prices that route as a closed tour.
- **`bruteforce.py`, an exact solver.** It fixes vertex 0 and prices `[0] + perm` for every permutation `perm` of the other vertices. It keeps the first tour of strictly smallest cost.

Both files share the cost routine `calcular_custo_rota`: the sum of the consecutive legs, plus the leg back to the start.

This project models both files in Dafny, one module per concern:

| module | file | models |
|---|---|---|
| `Tours` | `tours.dfy` | matrices, tours, `calcular_custo_rota` |
| `DisjointSet` | `disjoint_set.dfy` | class `UnionFind` (`__init__`, `find`, `union`) |
| `Graphs` | `graphs.dfy` | adjacency lists and reachability along their edges |
| `Kruskal` | `kruskal.dfy` | `kruskal_mst` |
| `TreeTour` | `tree_tour.dfy` | `dfs_mst` and its inner `dfs` |
| `ApproxSolver` | `approx_solver.dfy` | `tsp_aproximado_mst` |
| `Perms` | `perms.dfy` | the enumeration `itertools.permutations` |
| `BruteForce` | `brute_force.dfy` | `tsp_forca_bruta` |

Both source files are imperative, and the model keeps that form:

- **The cost routine.** It is a method with an accumulator loop.
- **`UnionFind`.** It is a class with the arrays `parent` and `rank`.
  - `Find` and `Union` modify those arrays in place.
  - Their contracts tie the arrays to value-level definitions: `Root`, `Roots` (each element's representative) and `Merge`.
  - The lemmas about those definitions say what compression and linking do to every element's representative.
- **`kruskal_mst`.** It is a method:
  - nested loops build the candidate list;
  - the main loop calls `Find` and `Union` and appends to the adjacency lists.
  - A ghost list `tree` records the kept edges. The loop invariant `Progress` says three things:
    - the union-find classes are exactly the connected components of the adjacency lists built so far;
    - each kept edge joined two vertices that were not yet connected;
    - the number of classes plus the number of kept edges is n.
  - The reference definition `Kept` states Kruskal's rule on values: scan the sorted edges and keep each one exactly when its endpoints are not yet connected by the edges kept before it. The kept list equals `Kept` of the scanned prefix after every iteration.
- **`dfs`.** It is a recursive method that marks a `visitado` array in place. The predicate `DepthFirst` states the order in which it enters the vertices.
- **The exact solver.** It is a loop over the enumeration. Its invariant describes the best tour so far.

Weights are exact integers (`int`). The source's `float('inf')` sentinel is the datatype `Bound` (`Infinite | Finite(value)`). `melhor_rota = None` is `Option.None`.

Edge cases of the code, as the model states them:

- **n = 0.** `kruskal_mst` returns an empty list. `dfs_mst` and `tsp_forca_bruta` raise IndexError: on `visitado[0]`, or on `matriz[0]` when pricing `[0]`. The model therefore accepts n = 0 in `KruskalMst`, and states `|m| >= 1` as a precondition of the two solvers.
- **n = 1.** Both solvers return the route `[0]` at the self-loop cost `matriz[0][0]`.
- **Dimension checks.** The code performs no dimension or index checks. The model states as preconditions what the code needs in order not to index out of range:
  - every row has at least n entries;
  - every route entry and every adjacency entry is a vertex.
- **`union` on two elements of the same set.** It is not free of effects: it calls `find`, which compresses paths. The model proves that the partition and the ranks are unchanged. It does not prove that `parent` is unchanged, because that does not hold.

## Model

| member | source | states |
|---|---|---|
| Tours.TourCost | mstkruskal.py:20-25 | the loop returns the closed-tour cost `CycleCost`: the sum of m[r[i]][r[i+1]] over consecutive legs, plus m[r[last]][r[0]]; it needs a non-empty route (bruteforce.py:27-35 has the same code) |
| Tours.CycleCostRotation | bruteforce.py:47-48 | rotating a closed tour does not change its cost, which is why the exact solver may fix vertex 0 as the start |
| Tours.CycleCostSingleton | bruteforce.py:34 | the one-vertex tour [v] costs m[v][v] |
| Tours.CycleCostReverse | mstkruskal.py:20-25 | on a symmetric matrix a closed tour costs the same walked backwards |
| Tours.PathCostAppend | mstkruskal.py:22-23 | the cost of two joined paths is the sum of their costs plus the leg between them |
| Tours.TourCharacterization | bruteforce.py:42-48 | "permutation of [0, n)" holds exactly when the route has n distinct entries, all below n (both directions) |
| Tours.CoverIsTour | mstkruskal.py:88-92 | a repetition-free route over vertices below n that visits all of them is a permutation of [0, n) of length n |
| DisjointSet.Root | mstkruskal.py:33-36 | following parent links from x ends at a root r with parent[r] == r; under the rank invariant a non-root has strictly smaller rank than its root |
| DisjointSet.CompressKeepsRoots | mstkruskal.py:35 | re-pointing an element at its root keeps the rank invariant, and the representative of every element stays the same |
| DisjointSet.LinkRoots | mstkruskal.py:42-48 | hanging root a under root b, with ranks that only grow at b and put a below b, keeps the rank invariant and merges exactly the class of a into the class of b |
| DisjointSet.MergeRemovesOneClass | mstkruskal.py:41-48 | merging two different classes lowers the number of classes by exactly one |
| DisjointSet.IdentityClasses | mstkruskal.py:29-31 | the initial partition has n singleton classes |
| DisjointSet.UnionFind.constructor | mstkruskal.py:29-31 | every element is its own parent and has rank 0; the rank invariant holds; each element is its own class |
| DisjointSet.UnionFind.Find | mstkruskal.py:33-36 | returns the old root of u, with parent[r] == r; the partition is unchanged; every parent entry is either unchanged or now points at its old root; the recursion ends, by the rank measure |
| DisjointSet.UnionFind.Union | mstkruskal.py:38-48 | the new partition merges the classes of u and v under the root of higher rank, with the root of u winning a tie; only that root's rank changes, by +1 and only on a tie; afterwards u and v share a class; if they already did, the partition and the ranks are unchanged; the rank invariant is kept |
| DisjointSet.UnionLink | mstkruskal.py:42-48 | linking two distinct roots by rank keeps the rank invariant, and the new classes are the old ones with the two merged under the winning root |
| Kruskal.CandidateEdges | mstkruskal.py:54-57 | every listed edge is (m[i][j], i, j) with i < j < n; every such pair is listed; the list is in lexicographic (i, j) order |
| Kruskal.SortByWeight | mstkruskal.py:60 | the result holds the same edges, in ascending (weight, i, j) order |
| Kruskal.StableSortByWeight | mstkruskal.py:60 | on the candidate list, that order is a stable sort by weight: weights never decrease, and edges of equal weight keep their input order |
| Kruskal.StableSortUnique | mstkruskal.py:60 | every stable sort of the candidate list by weight equals SortByWeight, so the scan order is fully determined |
| Kruskal.SortedCandidates | mstkruskal.py:54-60 | the sorted list holds each pair i < j once, at weight m[i][j], in stable weight order |
| Kruskal.AddEdge | mstkruskal.py:68-69 | after the two appends, y is a neighbour of x exactly when it was before, or when {x, y} is the new edge |
| Kruskal.AdjOfEdges | mstkruskal.py:65-69 | y is in mst[x] exactly when a kept edge joins x and y |
| Kruskal.AdjOfSymmetric | mstkruskal.py:68-69 | the adjacency is symmetric: v in mst[u] exactly when u in mst[v] |
| Kruskal.AdjOfDegree | mstkruskal.py:68-69 | every kept edge adds two adjacency entries |
| Kruskal.MergeIsComponents | mstkruskal.py:66-69 | merging the classes of u and v while adding the edge u-v keeps the classes equal to the connected components |
| Kruskal.KruskalStart | mstkruskal.py:62-63 | before the scan there are n singleton classes and no edges, which are the components of the empty graph |
| Kruskal.KruskalKeep | mstkruskal.py:66-69 | keeping an edge between two classes preserves the loop invariant: classes are components; the edge closes no cycle; classes + edges == n |
| Kruskal.KruskalSkip | mstkruskal.py:66 | skipping an edge inside one class preserves the loop invariant |
| Kruskal.KeptAcyclic | mstkruskal.py:65-69 | Kruskal's rule, as the reference definition `Kept` (each scanned edge kept exactly when its endpoints are not yet connected by the edges kept before it), closes no cycle |
| Kruskal.KeptScan | mstkruskal.py:65-69 | keeping an edge between two union-find classes, and skipping one inside a class, is what `Kept` does with that edge |
| Kruskal.KeptExample | mstkruskal.py:65-69 | on the scan (1, 0, 1), (1, 1, 2), (5, 0, 2), `Kept` keeps the first two edges and skips the third |
| Kruskal.KruskalDone | mstkruskal.py:65-71 | after the scan every pair has been seen, so for n >= 1 there is one class, n - 1 edges, and every vertex is reachable from 0 |
| Kruskal.ScanEdge | mstkruskal.py:65-69 | one loop iteration: the kept list grows by the scanned edge exactly when the old roots of its endpoints differ and is unchanged otherwise; the adjacency lists are those of the kept list; the kept list is still `Kept` of the scanned prefix; keeps the loop invariant |
| Kruskal.KruskalMst | mstkruskal.py:50-71 | the scan order holds every candidate once, in (weight, i, j) order; the kept edges are exactly `Kept` of that scan; returns n adjacency lists built from the kept edges; every kept edge is a candidate; edges are kept in sorted order; no kept edge closes a cycle; for n >= 1 there are n - 1 edges (2(n - 1) adjacency entries); every vertex is reachable from 0 |
| TreeTour.Dfs | mstkruskal.py:78-83 | appends u and then what its calls append; visitado marks exactly the route; no vertex is repeated; every new vertex is a neighbour of an earlier one; the new vertices follow the depth-first rule `DepthFirst`: each is entered from an earlier vertex w of this call, as a neighbour of w whose predecessors in w's list are already on the route, after every vertex between w and it was finished; every neighbour of a new vertex is on the route on return |
| TreeTour.DepthFirstStep | mstkruskal.py:81-83 | the call dfs(v) on the neighbour of u at list position c, all earlier neighbours being on the route, keeps the depth-first rule of dfs(u) |
| TreeTour.DepthFirstExample | mstkruskal.py:78-83 | on the tree 0-1, 0-2, 1-3 the depth-first rule admits the route [0, 1, 3, 2] |
| TreeTour.BreadthFirstExample | mstkruskal.py:78-83 | on the same tree the depth-first rule rules out the breadth-first route [0, 1, 2, 3] |
| TreeTour.DiscoveredReachable | mstkruskal.py:78-83 | along a route in which each vertex after the first is a neighbour of an earlier one, every vertex is reachable from the first |
| TreeTour.ChildStep | mstkruskal.py:81-83 | a recursive call on a neighbour v of u keeps the state of the loop over mst[u] |
| TreeTour.DfsMst | mstkruskal.py:74-86 | the route starts at inicio; no vertex is repeated; each vertex after the first is a neighbour of an earlier one; the route follows the depth-first rule; it holds exactly the vertices reachable from inicio (both directions) |
| ApproxSolver.ApproxTour | mstkruskal.py:88-92 | for n >= 1 the route is a permutation of [0, n) that starts at 0; the tree is `Kept` of the scan order, acyclic, with n - 1 candidate edges; the route follows the depth-first rule in that tree; the cost is CycleCost of the route; for n = 1 the result is [0] at cost m[0][0] |
| Perms.Permutations | bruteforce.py:47 | the enumeration is non-empty and every entry rearranges its input |
| Perms.PermutationsComplete | bruteforce.py:47 | every rearrangement of the input is enumerated |
| Perms.PermutationsNoRepeats | bruteforce.py:47 | with distinct inputs, no permutation is enumerated twice |
| BruteForce.Candidates | bruteforce.py:47-48 | every candidate [0] + perm is a permutation of [0, n), of length n, that starts at 0 |
| BruteForce.CandidatesComplete | bruteforce.py:47-48 | every tour that starts at 0 is a candidate |
| BruteForce.CandidatesNoRepeats | bruteforce.py:47-48 | no tour is priced twice |
| BruteForce.CandidateMinIsOptimal | bruteforce.py:47-53 | a cost that is at most every candidate's cost is at most the cost of every tour, by rotation to vertex 0 |
| BruteForce.ExactTour | bruteforce.py:37-54 | for n >= 1 the result is never None or infinite; the tour starts at 0 and is a permutation of [0, n); the reported cost is CycleCost of the tour; it is at most the cost of every tour; it is strictly below every earlier candidate (first optimum kept); for n = 1 the result is [0] at cost m[0][0] |

## Left out

- `ler_matriz_arquivo` (both files) reads and parses a file. It is I/O and is not modelled.
- `extrair_custo_otimo` (both files) is a regular-expression search over a file name. It is not modelled.
- The `__main__` blocks (both files) are not modelled: interactive input, path joining, timing, percentage error and printing.
- Weights are exact integers, not IEEE floats.
  - Effects of rounding, infinities and NaN are not modelled.
  - With float weights, a tour of infinite or NaN cost never passes `custo < melhor_custo`. The exact solver could then return `None`. With integer weights this cannot happen.
- Route and adjacency entries are naturals. Python's negative indexing (`rota[-1]` aside) is not modelled.
- `list.sort(key=...)` is a library routine. It is modelled by `Kruskal.SortByWeight`, an insertion sort on (weight, i, j). `Kruskal.StableSortUnique` proves that any stable sort by weight of the candidate list gives this same list.
- `itertools.permutations` is a library routine.
  - It is modelled by `Perms.Permutations`: for each position in turn, that element followed by every permutation of the rest. This is the library's position-based order.
  - The model does not prove that this order agrees with the library's order. The properties of the exact solver are stated against the set of all permutations: each one is enumerated, and none is enumerated twice.
  - "First optimum kept" refers to this enumeration.
- Kruskal.KruskalMst: proves that the result is a spanning tree of n - 1 edges with no cycle. It does not prove that the tree has minimum total weight (the cut property).
- ApproxSolver.ApproxTour: the factor-2 bound of the tour's cost under the triangle inequality is not proved.
- Kruskal.KruskalMst: requires every row to have at least n entries. `kruskal_mst` never reads the last row, nor the entries at or below the diagonal.
- DisjointSet.UnionFind.Union: proves that a union within one set leaves the partition and the ranks unchanged, not the parent array. `find` may compress paths during such a call, so the parent array can change.
- `dfs` is a function nested in `dfs_mst` that appends to the enclosing `rota` in place. `TreeTour.Dfs` takes the route in and hands the extended route back.
- The recursion-depth limit of Python is not modelled.
