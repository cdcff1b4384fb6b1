/** tsp_aproximado_mst of mstkruskal.py: the spanning tree of Kruskal's
    rule, walked in depth-first preorder from vertex 0, priced as a closed
    tour. */
module ApproxSolver {
  import opened Tours
  import opened Graphs
  import opened Kruskal
  import opened TreeTour

  /** The route is a permutation of the vertices starting at 0, the reported
      cost is that of the closed tour, and the route lists the vertices in
      the order depth-first search enters them in the tree `tree`: the
      edges Kruskal's rule keeps from the scan order `sorted` (n - 1 edges,
      no cycle). An empty matrix
      makes dfs_mst index visitado[0] out of range, hence |m| >= 1. */
  method ApproxTour(m: Matrix) returns (route: seq<nat>, cost: int, ghost tree: seq<Edge>, ghost sorted: seq<Edge>)
    requires IsMatrix(m) && |m| >= 1
    ensures |route| == |m| && route[0] == 0 && IsTour(route, |m|)
    ensures IsRoute(m, route) && cost == CycleCost(m, route)
    ensures forall k :: 0 <= k < |sorted| ==> IsCandidate(m, sorted[k])
    ensures forall i, j :: 0 <= i < j < |m| ==> Edge(m[i][j], i, j) in sorted
    ensures SortedByEdgeLess(sorted) && EndpointsBelow(|m|, sorted) && tree == Kept(|m|, sorted)
    ensures EndpointsBelow(|m|, tree) && Acyclic(|m|, tree) && |tree| == |m| - 1
    ensures forall k :: 0 <= k < |tree| ==> IsCandidate(m, tree[k])
    ensures Distinct(route) && Discovered(AdjOf(|m|, tree), route)
    ensures DepthFirst(AdjOf(|m|, tree), route, 0)
    ensures |m| == 1 ==> route == [0] && cost == m[0][0]
  {
    var mst;
    mst, tree, sorted := KruskalMst(m);
    route := DfsMst(mst, 0);
    CoverIsTour(route, |m|);
    cost := TourCost(m, route);
    if |m| == 1 {
      assert route == [0];
    }
  }
}
