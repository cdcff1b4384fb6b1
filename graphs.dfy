/** Adjacency lists, as kruskal_mst builds them and dfs_mst walks them
    (mstkruskal.py), and reachability along their edges. */
module Graphs {

  /** g[x] lists the neighbours of vertex x. */
  type Graph = seq<seq<nat>>

  /** Every listed neighbour is a vertex. */
  predicate IsGraph(g: Graph)
  {
    forall x, k :: 0 <= x < |g| && 0 <= k < |g[x]| ==> g[x][k] < |g|
  }

  /** The adjacency lists of n vertices and no edge. */
  function NoEdges(n: nat): (g: Graph)
    ensures |g| == n && IsGraph(g)
    ensures forall x :: 0 <= x < n ==> g[x] == []
  {
    seq(n, _ => [])
  }

  /** A walk: a non-empty sequence of vertices, each a neighbour of the one
      before it. */
  ghost predicate IsWalk(g: Graph, w: seq<nat>)
  {
    && |w| >= 1
    && (forall i :: 0 <= i < |w| ==> w[i] < |g|)
    && (forall i :: 0 <= i < |w| - 1 ==> w[i + 1] in g[w[i]])
  }

  /** Some walk leads from x to y. */
  ghost predicate Reachable(g: Graph, x: nat, y: nat)
  {
    exists w :: IsWalk(g, w) && w[0] == x && w[|w| - 1] == y
  }

  /** Every neighbour of a member of s is a member of s. */
  ghost predicate Closed(g: Graph, s: set<nat>)
  {
    forall a, b :: a in s && a < |g| && b in g[a] ==> b in s
  }

  /** Every edge of g is an edge of h. */
  ghost predicate SubGraph(g: Graph, h: Graph)
  {
    |g| == |h| && forall x, y :: 0 <= x < |g| && y in g[x] ==> y in h[x]
  }

  lemma ReachableRefl(g: Graph, x: nat)
    requires x < |g|
    ensures Reachable(g, x, x)
  {
    assert IsWalk(g, [x]);
  }

  /** One edge is a walk. */
  lemma ReachableEdge(g: Graph, x: nat, y: nat)
    requires IsGraph(g) && x < |g| && y in g[x]
    ensures Reachable(g, x, y)
  {
    assert IsWalk(g, [x, y]);
  }

  /** Walks compose. */
  lemma ReachableTrans(g: Graph, x: nat, y: nat, z: nat)
    requires Reachable(g, x, y) && Reachable(g, y, z)
    ensures Reachable(g, x, z)
  {
    var w1 :| IsWalk(g, w1) && w1[0] == x && w1[|w1| - 1] == y;
    var w2 :| IsWalk(g, w2) && w2[0] == y && w2[|w2| - 1] == z;
    var w := w1 + w2[1..];
    assert forall i :: 0 <= i < |w| - 1 ==> w[i + 1] in g[w[i]] by {
      forall i | 0 <= i < |w| - 1 ensures w[i + 1] in g[w[i]] {
        if i < |w1| - 1 {
          assert w[i] == w1[i] && w[i + 1] == w1[i + 1];
        } else {
          assert w[i] == w2[i - |w1| + 1] && w[i + 1] == w2[i - |w1| + 2];
        }
      }
    }
    assert IsWalk(g, w);
  }

  /** A walk that starts inside a closed set never leaves it. */
  lemma {:induction false} WalkStaysInClosed(g: Graph, s: set<nat>, w: seq<nat>, i: nat)
    requires Closed(g, s) && IsWalk(g, w) && w[0] in s && i < |w|
    ensures w[i] in s
  {
    if i > 0 {
      WalkStaysInClosed(g, s, w, i - 1);
      assert w[i] in g[w[i - 1]];
    }
  }

  /** Everything reachable from a member of a closed set is a member. */
  lemma ReachableStaysInClosed(g: Graph, s: set<nat>, x: nat, y: nat)
    requires Closed(g, s) && x in s && Reachable(g, x, y)
    ensures y in s
  {
    var w :| IsWalk(g, w) && w[0] == x && w[|w| - 1] == y;
    WalkStaysInClosed(g, s, w, |w| - 1);
  }

  /** A labelling that agrees across every edge agrees along every walk. */
  lemma ReachableSameLabel(g: Graph, tag: seq<nat>, x: nat, y: nat)
    requires |tag| == |g| && x < |g| && Reachable(g, x, y)
    requires forall a, b :: 0 <= a < |g| && b in g[a] ==> b < |g| && tag[a] == tag[b]
    ensures y < |g| && tag[x] == tag[y]
  {
    var s := set z | 0 <= z < |g| && tag[z] == tag[x];
    forall a, b | a in s && a < |g| && b in g[a] ensures b in s {
      assert tag[a] == tag[x];
      assert b < |g| && tag[a] == tag[b];
      assert 0 <= b < |g| && tag[b] == tag[x];
    }
    assert x in s;
    ReachableStaysInClosed(g, s, x, y);
  }

  /** Adding edges keeps every walk a walk. */
  lemma ReachableInSuperGraph(g: Graph, h: Graph, x: nat, y: nat)
    requires SubGraph(g, h) && Reachable(g, x, y)
    ensures Reachable(h, x, y)
  {
    var w :| IsWalk(g, w) && w[0] == x && w[|w| - 1] == y;
    assert IsWalk(h, w);
  }

  /** Without edges a vertex reaches only itself. */
  lemma ReachableNoEdges(n: nat, x: nat, y: nat)
    requires x < n
    ensures Reachable(NoEdges(n), x, y) <==> x == y
  {
    var g := NoEdges(n);
    if Reachable(g, x, y) {
      var ids := seq(n, i requires 0 <= i < n => i as nat);
      ReachableSameLabel(g, ids, x, y);
    }
    if x == y {
      ReachableRefl(g, x);
    }
  }
}
