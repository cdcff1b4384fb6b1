/** kruskal_mst of mstkruskal.py: list every pair i < j as a weighted edge,
    sort the edges by weight (stably), then keep each edge whose endpoints
    are in different union-find classes, recording it in both endpoints'
    adjacency lists. */
module Kruskal {
  import opened Tours
  import opened Graphs
  import opened DisjointSet

  /** A candidate edge (peso, u, v). */
  datatype Edge = Edge(w: int, u: nat, v: nat)

  /** The order of the endpoint pairs: the order in which the nested loops
      list them. */
  predicate PairLess(a: Edge, b: Edge)
  {
    a.u < b.u || (a.u == b.u && a.v < b.v)
  }

  /** Weight first, then endpoints. */
  predicate EdgeLess(a: Edge, b: Edge)
  {
    a.w < b.w || (a.w == b.w && PairLess(a, b))
  }

  predicate SortedByEdgeLess(s: seq<Edge>)
  {
    forall i, j :: 0 <= i < j < |s| ==> EdgeLess(s[i], s[j])
  }

  predicate SortedByPair(s: seq<Edge>)
  {
    forall i, j :: 0 <= i < j < |s| ==> PairLess(s[i], s[j])
  }

  /** The edge joins two vertices u < v of the matrix and weighs m[u][v]. */
  predicate IsCandidate(m: Matrix, e: Edge)
    requires IsMatrix(m)
  {
    e.u < e.v < |m| && e.w == m[e.u][e.v]
  }

  /** The nested loops of kruskal_mst that build arestas: exactly the pairs
      i < j, each with weight m[i][j], in lexicographic order of (i, j). */
  method CandidateEdges(m: Matrix) returns (es: seq<Edge>)
    requires IsMatrix(m)
    ensures forall k :: 0 <= k < |es| ==> IsCandidate(m, es[k])
    ensures forall i, j :: 0 <= i < j < |m| ==> Edge(m[i][j], i, j) in es
    ensures SortedByPair(es)
  {
    var n := |m|;
    es := [];
    for i := 0 to n
      invariant forall k :: 0 <= k < |es| ==> IsCandidate(m, es[k]) && es[k].u < i
      invariant forall a, b :: 0 <= a < i && a < b < n ==> Edge(m[a][b], a, b) in es
      invariant SortedByPair(es)
    {
      for j := i + 1 to n
        invariant forall k :: 0 <= k < |es| ==>
          IsCandidate(m, es[k]) && (es[k].u < i || (es[k].u == i && es[k].v < j))
        invariant forall a, b :: 0 <= a < i && a < b < n ==> Edge(m[a][b], a, b) in es
        invariant forall b :: i < b < j ==> Edge(m[i][b], i, b) in es
        invariant SortedByPair(es)
      {
        es := es + [Edge(m[i][j], i, j)];
      }
    }
  }

  /** EdgeLess is a strict total order. */
  lemma EdgeLessTotal(a: Edge, b: Edge)
    ensures a == b || EdgeLess(a, b) || EdgeLess(b, a)
    ensures !(EdgeLess(a, b) && EdgeLess(b, a))
  {
  }

  /** Everything inserted after the head of a sorted list comes after it. */
  lemma InsertAfterHead(e: Edge, s: seq<Edge>, rest: seq<Edge>)
    requires SortedByEdgeLess(s) && s != [] && e !in s && !EdgeLess(e, s[0])
    requires multiset(rest) == multiset(s[1..]) + multiset{e}
    ensures forall k :: 0 <= k < |rest| ==> EdgeLess(s[0], rest[k])
  {
    forall k | 0 <= k < |rest| ensures EdgeLess(s[0], rest[k]) {
      var x := rest[k];
      assert x in multiset(rest);
      if x == e {
        EdgeLessTotal(e, s[0]);
      } else {
        assert x in multiset(s[1..]);
        var j :| 0 <= j < |s[1..]| && s[1..][j] == x;
        assert s[j + 1] == x;
      }
    }
  }

  /** Inserts e into its place in a sorted sequence. */
  function Insert(e: Edge, s: seq<Edge>): (r: seq<Edge>)
    requires SortedByEdgeLess(s) && e !in s
    ensures multiset(r) == multiset(s) + multiset{e}
    ensures SortedByEdgeLess(r)
  {
    if s == [] then [e]
    else if EdgeLess(e, s[0]) then [e] + s
    else
      var rest := Insert(e, s[1..]);
      assert s == [s[0]] + s[1..];
      InsertAfterHead(e, s, rest);
      [s[0]] + rest
  }

  /** The edge list sorted on weight and then on endpoints. This stands for
      list.sort(key=weight) of the source, a library routine; the lemmas
      StableSortByWeight and StableSortUnique show that on the lexicographic
      candidate list it yields exactly what a stable sort by weight yields. */
  function SortByWeight(s: seq<Edge>): (r: seq<Edge>)
    requires forall i, j :: 0 <= i < j < |s| ==> s[i] != s[j]
    ensures multiset(r) == multiset(s)
    ensures SortedByEdgeLess(r)
  {
    if s == [] then []
    else
      var front := s[..|s| - 1];
      assert s == front + [s[|s| - 1]];
      var sorted := SortByWeight(front);
      assert s[|s| - 1] !in multiset(front);
      Insert(s[|s| - 1], sorted)
  }

  /** Weights never decrease along the list. */
  predicate NondecreasingWeight(s: seq<Edge>)
  {
    forall i, j :: 0 <= i < j < |s| ==> s[i].w <= s[j].w
  }

  /** Stability: two edges of equal weight keep the order they had in the
      input. */
  predicate KeepsTieOrder(input: seq<Edge>, out: seq<Edge>)
  {
    forall i, j, a, b ::
      (&& 0 <= i < j < |out| && 0 <= a < |input| && 0 <= b < |input|
       && out[i] == input[a] && out[j] == input[b] && out[i].w == out[j].w) ==> a < b
  }

  /** In a list sorted by weight and endpoints, two equal-weight edges taken
      from a list sorted by endpoints keep their relative order. */
  lemma TieOrder(s: seq<Edge>, out: seq<Edge>, i: nat, j: nat, a: nat, b: nat)
    requires SortedByPair(s) && SortedByEdgeLess(out)
    requires i < j < |out| && a < |s| && b < |s|
    requires out[i] == s[a] && out[j] == s[b] && out[i].w == out[j].w
    ensures a < b
  {
    assert EdgeLess(out[i], out[j]);
  }

  /** SortByWeight of the candidate list is a stable sort by weight. */
  lemma StableSortByWeight(s: seq<Edge>)
    requires SortedByPair(s)
    ensures forall i, j :: 0 <= i < j < |s| ==> s[i] != s[j]
    ensures multiset(SortByWeight(s)) == multiset(s)
    ensures NondecreasingWeight(SortByWeight(s))
    ensures KeepsTieOrder(s, SortByWeight(s))
  {
    var out := SortByWeight(s);
    forall i, j, a, b |
      0 <= i < j < |out| && 0 <= a < |s| && 0 <= b < |s| &&
      out[i] == s[a] && out[j] == s[b] && out[i].w == out[j].w
      ensures a < b
    {
      TieOrder(s, out, i, j, a, b);
    }
  }

  /** The head of a strictly sorted sequence precedes every other element. */
  lemma HeadIsLeast(a: seq<Edge>, x: Edge)
    requires SortedByEdgeLess(a) && x in a
    ensures x == a[0] || EdgeLess(a[0], x)
  {
    var i :| 0 <= i < |a| && a[i] == x;
    if i > 0 {
      assert EdgeLess(a[0], a[i]);
    }
  }

  /** Equal multisets with equal heads have equal tails. */
  lemma TailMultiset(a: seq<Edge>, b: seq<Edge>)
    requires a != [] && b != [] && a[0] == b[0] && multiset(a) == multiset(b)
    ensures multiset(a[1..]) == multiset(b[1..])
  {
    assert a == [a[0]] + a[1..] && b == [b[0]] + b[1..];
    assert multiset(a) == multiset{a[0]} + multiset(a[1..]);
    assert multiset(b) == multiset{b[0]} + multiset(b[1..]);
    forall x: Edge ensures multiset(a[1..])[x] == multiset(b[1..])[x] {
      assert multiset(a)[x] == multiset(b)[x];
    }
  }

  lemma SortedTail(a: seq<Edge>)
    requires SortedByEdgeLess(a) && a != []
    ensures SortedByEdgeLess(a[1..])
  {
    forall i, j | 0 <= i < j < |a[1..]| ensures EdgeLess(a[1..][i], a[1..][j]) {
      assert a[1..][i] == a[i + 1] && a[1..][j] == a[j + 1];
    }
  }

  /** Two strictly sorted sequences with the same elements are equal. */
  lemma {:induction false} SortedUnique(a: seq<Edge>, b: seq<Edge>)
    requires SortedByEdgeLess(a) && SortedByEdgeLess(b) && multiset(a) == multiset(b)
    ensures a == b
    decreases |a|
  {
    assert |multiset(a)| == |a| && |multiset(b)| == |b|;
    if a != [] {
      assert b[0] in multiset(a) && a[0] in multiset(b);
      HeadIsLeast(a, b[0]);
      HeadIsLeast(b, a[0]);
      EdgeLessTotal(a[0], b[0]);
      TailMultiset(a, b);
      SortedTail(a);
      SortedTail(b);
      SortedUnique(a[1..], b[1..]);
      assert a == [a[0]] + a[1..] && b == [b[0]] + b[1..];
    }
  }

  /** One pair of a stably sorted list is in EdgeLess order. */
  lemma StablePairOrdered(s: seq<Edge>, out: seq<Edge>, i: nat, j: nat)
    requires SortedByPair(s)
    requires multiset(out) == multiset(s)
    requires NondecreasingWeight(out) && KeepsTieOrder(s, out)
    requires i < j < |out|
    ensures EdgeLess(out[i], out[j])
  {
    assert out[i] in multiset(s) && out[j] in multiset(s);
    var a :| 0 <= a < |s| && s[a] == out[i];
    var b :| 0 <= b < |s| && s[b] == out[j];
    assert out[i].w <= out[j].w;
    if out[i].w == out[j].w {
      assert a < b;
      assert PairLess(s[a], s[b]);
    }
  }

  /** Any stable sort of the candidate list by weight equals SortByWeight:
      the order kruskal_mst scans is determined, ties in (i, j) order. */
  lemma StableSortUnique(s: seq<Edge>, out: seq<Edge>)
    requires SortedByPair(s)
    requires multiset(out) == multiset(s)
    requires NondecreasingWeight(out) && KeepsTieOrder(s, out)
    ensures forall i, j :: 0 <= i < j < |s| ==> s[i] != s[j]
    ensures out == SortByWeight(s)
  {
    forall i, j | 0 <= i < j < |out| ensures EdgeLess(out[i], out[j]) {
      StablePairOrdered(s, out, i, j);
    }
    SortedUnique(out, SortByWeight(s));
  }

  /** The two appends of kruskal_mst: mst[u].append(v), then mst[v].append(u). */
  function AddEdge(g: Graph, u: nat, v: nat): (h: Graph)
    requires u < |g| && v < |g|
    ensures |h| == |g|
    ensures IsGraph(g) ==> IsGraph(h)
    ensures forall x, y :: 0 <= x < |g| ==>
      (y in h[x] <==> y in g[x] || (x == u && y == v) || (x == v && y == u))
  {
    var g1 := g[u := g[u] + [v]];
    g1[v := g1[v] + [u]]
  }

  predicate EndpointsBelow(n: nat, tree: seq<Edge>)
  {
    forall k :: 0 <= k < |tree| ==> tree[k].u < n && tree[k].v < n
  }

  /** The adjacency lists that the appends build from an edge list. */
  function AdjOf(n: nat, tree: seq<Edge>): (g: Graph)
    requires EndpointsBelow(n, tree)
    ensures |g| == n && IsGraph(g)
    decreases |tree|
  {
    if tree == [] then NoEdges(n)
    else
      var last := tree[|tree| - 1];
      AddEdge(AdjOf(n, tree[..|tree| - 1]), last.u, last.v)
  }

  /** The edge e joins x and y, in either direction. */
  predicate Joins(e: Edge, x: nat, y: nat)
  {
    (e.u == x && e.v == y) || (e.u == y && e.v == x)
  }

  /** The adjacency lists hold exactly the edges of the list, both ways. */
  lemma {:induction false} AdjOfEdges(n: nat, tree: seq<Edge>, x: nat, y: nat)
    requires EndpointsBelow(n, tree) && x < n
    ensures y in AdjOf(n, tree)[x] <==> exists k :: 0 <= k < |tree| && Joins(tree[k], x, y)
    decreases |tree|
  {
    if tree != [] {
      var front := tree[..|tree| - 1];
      AdjOfEdges(n, front, x, y);
      if y in AdjOf(n, tree)[x] && !Joins(tree[|tree| - 1], x, y) {
        var k :| 0 <= k < |front| && Joins(front[k], x, y);
        assert tree[k] == front[k];
      }
      if exists k :: 0 <= k < |tree| && Joins(tree[k], x, y) {
        var k :| 0 <= k < |tree| && Joins(tree[k], x, y);
        if k < |front| {
          assert Joins(front[k], x, y);
        }
      }
    }
  }

  /** The adjacency of the tree is symmetric: v in mst[u] iff u in mst[v]. */
  lemma AdjOfSymmetric(n: nat, tree: seq<Edge>, x: nat, y: nat)
    requires EndpointsBelow(n, tree) && x < n && y < n
    ensures y in AdjOf(n, tree)[x] <==> x in AdjOf(n, tree)[y]
  {
    AdjOfEdges(n, tree, x, y);
    AdjOfEdges(n, tree, y, x);
    if exists k :: 0 <= k < |tree| && Joins(tree[k], x, y) {
      var k :| 0 <= k < |tree| && Joins(tree[k], x, y);
      assert Joins(tree[k], y, x);
    }
    if exists k :: 0 <= k < |tree| && Joins(tree[k], y, x) {
      var k :| 0 <= k < |tree| && Joins(tree[k], y, x);
      assert Joins(tree[k], x, y);
    }
  }

  /** The number of entries over all adjacency lists. */
  function TotalDegree(g: Graph): nat
  {
    if g == [] then 0 else TotalDegree(g[..|g| - 1]) + |g[|g| - 1]|
  }

  lemma {:induction false} TotalDegreeUpdate(g: Graph, x: nat, s: seq<nat>)
    requires x < |g|
    ensures TotalDegree(g[x := s]) + |g[x]| == TotalDegree(g) + |s|
    decreases |g|
  {
    var h := g[x := s];
    if x < |g| - 1 {
      assert h[..|h| - 1] == g[..|g| - 1][x := s];
      TotalDegreeUpdate(g[..|g| - 1], x, s);
    } else {
      assert h[..|h| - 1] == g[..|g| - 1];
    }
  }

  lemma {:induction false} TotalDegreeNoEdges(n: nat)
    ensures TotalDegree(NoEdges(n)) == 0
  {
    if n > 0 {
      assert NoEdges(n)[..n - 1] == NoEdges(n - 1);
      TotalDegreeNoEdges(n - 1);
    }
  }

  /** Each recorded edge adds two adjacency entries. */
  lemma {:induction false} AdjOfDegree(n: nat, tree: seq<Edge>)
    requires EndpointsBelow(n, tree)
    ensures TotalDegree(AdjOf(n, tree)) == 2 * |tree|
    decreases |tree|
  {
    if tree == [] {
      TotalDegreeNoEdges(n);
    } else {
      var front := tree[..|tree| - 1];
      var last := tree[|tree| - 1];
      AdjOfDegree(n, front);
      var g := AdjOf(n, front);
      var g1 := g[last.u := g[last.u] + [last.v]];
      TotalDegreeUpdate(g, last.u, g[last.u] + [last.v]);
      TotalDegreeUpdate(g1, last.v, g1[last.v] + [last.u]);
    }
  }

  /** No recorded edge closes a cycle: when each edge was added, its
      endpoints were not yet connected by the edges before it. */
  ghost predicate Acyclic(n: nat, tree: seq<Edge>)
  {
    && EndpointsBelow(n, tree)
    && forall k :: 0 <= k < |tree| ==> !Reachable(AdjOf(n, tree[..k]), tree[k].u, tree[k].v)
  }

  /** Kruskal's rule as a reference definition: scan s in order and keep
      each edge exactly when its endpoints are not yet connected by the
      edges kept before it. */
  ghost function Kept(n: nat, s: seq<Edge>): (tree: seq<Edge>)
    requires EndpointsBelow(n, s)
    ensures EndpointsBelow(n, tree)
    decreases |s|
  {
    if s == [] then []
    else
      var e := s[|s| - 1];
      var before := Kept(n, s[..|s| - 1]);
      if Reachable(AdjOf(n, before), e.u, e.v) then before else before + [e]
  }

  /** On the matrix [[0, 1, 5], [1, 0, 1], [5, 1, 0]], whose scan order is
      (1, 0, 1), (1, 1, 2), (5, 0, 2), the rule keeps the first two edges
      and skips the third, whose endpoints they already connect. */
  lemma KeptExample()
    ensures Kept(3, [Edge(1, 0, 1), Edge(1, 1, 2), Edge(5, 0, 2)]) == [Edge(1, 0, 1), Edge(1, 1, 2)]
  {
    var s := [Edge(1, 0, 1), Edge(1, 1, 2), Edge(5, 0, 2)];
    assert s[..2] == [Edge(1, 0, 1), Edge(1, 1, 2)];
    KeptExampleTwo();
    var g := AdjOf(3, [Edge(1, 0, 1), Edge(1, 1, 2)]);
    ExampleAdjTwo();
    ReachableEdge(g, 0, 1);
    ReachableEdge(g, 1, 2);
    ReachableTrans(g, 0, 1, 2);
  }

  lemma KeptExampleOne()
    ensures Kept(3, [Edge(1, 0, 1)]) == [Edge(1, 0, 1)]
  {
    assert [Edge(1, 0, 1)][..0] == [];
    ReachableNoEdges(3, 0, 1);
  }

  lemma KeptExampleTwo()
    ensures Kept(3, [Edge(1, 0, 1), Edge(1, 1, 2)]) == [Edge(1, 0, 1), Edge(1, 1, 2)]
  {
    assert [Edge(1, 0, 1), Edge(1, 1, 2)][..1] == [Edge(1, 0, 1)];
    KeptExampleOne();
    ExampleAdjOne();
    ExampleUnreachable();
  }

  lemma ExampleUnreachable()
    ensures !Reachable([[1], [0], []], 1, 2)
  {
    var g: Graph := [[1], [0], []];
    assert Closed(g, {0, 1});
    if Reachable(g, 1, 2) {
      ReachableStaysInClosed(g, {0, 1}, 1, 2);
    }
  }

  lemma ExampleAdjOne()
    ensures AdjOf(3, [Edge(1, 0, 1)]) == [[1], [0], []]
  {
    assert [Edge(1, 0, 1)][..0] == [];
    var g0 := NoEdges(3);
    assert g0 == [[], [], []];
    assert AdjOf(3, [Edge(1, 0, 1)]) == AddEdge(g0, 0, 1);
    assert g0[0] + [1] == [1];
    var g1 := g0[0 := [1]];
    assert g1 == [[1], [], []];
    assert g1[1] + [0] == [0];
    assert g1[1 := [0]] == [[1], [0], []];
  }

  lemma ExampleAdjTwo()
    ensures AdjOf(3, [Edge(1, 0, 1), Edge(1, 1, 2)]) == [[1], [0, 2], [1]]
  {
    assert [Edge(1, 0, 1), Edge(1, 1, 2)][..1] == [Edge(1, 0, 1)];
    ExampleAdjOne();
    var g0: Graph := [[1], [0], []];
    assert AdjOf(3, [Edge(1, 0, 1), Edge(1, 1, 2)]) == AddEdge(g0, 1, 2);
    assert g0[1] + [2] == [0, 2];
    var g1 := g0[1 := [0, 2]];
    assert g1 == [[1], [0, 2], []];
    assert g1[2] + [1] == [1];
    assert g1[2 := [1]] == [[1], [0, 2], [1]];
  }

  /** Kruskal's rule closes no cycle. */
  lemma {:induction false} KeptAcyclic(n: nat, s: seq<Edge>)
    requires EndpointsBelow(n, s)
    ensures Acyclic(n, Kept(n, s))
    decreases |s|
  {
    if s != [] {
      var e := s[|s| - 1];
      KeptAcyclic(n, s[..|s| - 1]);
      var before := Kept(n, s[..|s| - 1]);
      if !Reachable(AdjOf(n, before), e.u, e.v) {
        KeepAcyclic(n, before, e);
      }
    }
  }

  /** One more scanned edge: kept exactly when its endpoints are not yet
      connected by the edges kept from the prefix before it. */
  lemma KeptStep(n: nat, s: seq<Edge>, i: nat)
    requires EndpointsBelow(n, s) && i < |s|
    ensures EndpointsBelow(n, s[..i]) && EndpointsBelow(n, s[..i + 1])
    ensures Kept(n, s[..i + 1]) ==
      if Reachable(AdjOf(n, Kept(n, s[..i])), s[i].u, s[i].v)
      then Kept(n, s[..i]) else Kept(n, s[..i]) + [s[i]]
  {
    assert s[..i + 1][..i] == s[..i];
  }

  /** The kept edges are those of Kruskal's rule on the scanned prefix. */
  ghost predicate KeptSoFar(n: nat, sorted: seq<Edge>, i: nat, tree: seq<Edge>)
  {
    && i <= |sorted| && EndpointsBelow(n, sorted)
    && (forall k :: 0 <= k < i ==> sorted[..i][k] == sorted[k])
    && tree == Kept(n, sorted[..i])
  }

  /** Keeping an edge between two classes, or skipping one inside a class,
      follows Kruskal's rule. */
  lemma KeptScan(n: nat, sorted: seq<Edge>, i: nat, roots: seq<nat>, tree: seq<Edge>)
    requires i < |sorted| && KeptSoFar(n, sorted, i, tree) && |roots| == n
    requires EndpointsBelow(n, tree) && ClassesAreComponents(roots, AdjOf(n, tree))
    ensures roots[sorted[i].u] != roots[sorted[i].v] ==> KeptSoFar(n, sorted, i + 1, tree + [sorted[i]])
    ensures roots[sorted[i].u] == roots[sorted[i].v] ==> KeptSoFar(n, sorted, i + 1, tree)
  {
    KeptStep(n, sorted, i);
    var e := sorted[i];
    assert e.u < n && e.v < n;
    assert roots[e.u] == roots[e.v] <==> Reachable(AdjOf(n, tree), e.u, e.v);
  }

  /** The union-find classes are exactly the connected components of g. */
  ghost predicate ClassesAreComponents(roots: seq<nat>, g: Graph)
  {
    forall x, y :: 0 <= x < |roots| && 0 <= y < |roots| ==>
      (roots[x] == roots[y] <==> Reachable(g, x, y))
  }

  /** The scan order: candidate edges u < v below n, strictly sorted. */
  ghost predicate ScanOrder(n: nat, sorted: seq<Edge>)
  {
    && (forall k :: 0 <= k < |sorted| ==> sorted[k].u < sorted[k].v < n)
    && SortedByEdgeLess(sorted)
  }

  /** The kept edges after scanning sorted[..i]: taken from the scanned
      prefix in scan order, recorded in g, and closing no cycle. */
  ghost predicate TreeSoFar(n: nat, sorted: seq<Edge>, i: nat, g: Graph, tree: seq<Edge>)
  {
    && i <= |sorted|
    && EndpointsBelow(n, tree)
    && g == AdjOf(n, tree)
    && (forall k :: 0 <= k < |tree| ==> tree[k] in sorted[..i])
    && SortedByEdgeLess(tree)
    && Acyclic(n, tree)
  }

  /** The union-find classes after scanning sorted[..i]: the components of
      g, one fewer per kept edge, and every scanned edge inside one class. */
  ghost predicate ClassesSoFar(n: nat, sorted: seq<Edge>, i: nat, roots: seq<nat>, g: Graph, tree: seq<Edge>)
    requires i <= |sorted|
  {
    && |roots| == n
    && (forall k :: 0 <= k < |sorted| ==> sorted[k].u < n && sorted[k].v < n)
    && ClassesAreComponents(roots, g)
    && |Classes(roots)| + |tree| == n
    && (forall k :: 0 <= k < i ==> roots[sorted[k].u] == roots[sorted[k].v])
  }

  /** The loop invariant of kruskal_mst after the first i sorted edges. */
  ghost predicate Progress(n: nat, sorted: seq<Edge>, i: nat, roots: seq<nat>, g: Graph, tree: seq<Edge>)
  {
    && ScanOrder(n, sorted)
    && TreeSoFar(n, sorted, i, g, tree)
    && ClassesSoFar(n, sorted, i, roots, g, tree)
  }

  /** Merging the classes of u and v while adding the edge u-v keeps the
      classes equal to the components. */
  lemma MergeIsComponents(roots: seq<nat>, g: Graph, u: nat, v: nat, w: nat)
    requires |roots| == |g| && IsGraph(g) && u < |g| && v < |g|
    requires roots[u] != roots[v] && (w == roots[u] || w == roots[v])
    requires ClassesAreComponents(roots, g)
    ensures ClassesAreComponents(Merge(roots, roots[u], roots[v], w), AddEdge(g, u, v))
  {
    var n := |g|;
    var merged := Merge(roots, roots[u], roots[v], w);
    var h := AddEdge(g, u, v);
    assert SubGraph(g, h);
    forall a, b | 0 <= a < n && b in h[a] ensures b < n && merged[a] == merged[b] {
      if b in g[a] {
        ReachableEdge(g, a, b);
      }
    }
    forall x, y | 0 <= x < n && 0 <= y < n
      ensures merged[x] == merged[y] <==> Reachable(h, x, y)
    {
      if Reachable(h, x, y) {
        ReachableSameLabel(h, merged, x, y);
      }
      if merged[x] == merged[y] {
        if roots[x] == roots[y] {
          ReachableInSuperGraph(g, h, x, y);
        } else if roots[x] == roots[u] {
          ReachableInSuperGraph(g, h, x, u);
          ReachableEdge(h, u, v);
          ReachableInSuperGraph(g, h, v, y);
          ReachableTrans(h, x, u, v);
          ReachableTrans(h, x, v, y);
        } else {
          ReachableInSuperGraph(g, h, x, v);
          ReachableEdge(h, v, u);
          ReachableInSuperGraph(g, h, u, y);
          ReachableTrans(h, x, v, u);
          ReachableTrans(h, x, u, y);
        }
      }
    }
  }

  /** Before the first edge: singleton classes, no edges. */
  lemma KruskalStart(n: nat, sorted: seq<Edge>, roots: seq<nat>)
    requires ScanOrder(n, sorted)
    requires |roots| == n && forall x :: 0 <= x < n ==> roots[x] == x
    ensures Progress(n, sorted, 0, roots, NoEdges(n), [])
  {
    IdentityClasses(roots);
    forall x, y | 0 <= x < n && 0 <= y < n
      ensures roots[x] == roots[y] <==> Reachable(NoEdges(n), x, y)
    {
      ReachableNoEdges(n, x, y);
    }
  }

  /** The kept edges stay inside the scanned prefix. */
  lemma KeepWithinScanned(sorted: seq<Edge>, i: nat, tree: seq<Edge>)
    requires i < |sorted| && forall k :: 0 <= k < |tree| ==> tree[k] in sorted[..i]
    ensures forall k :: 0 <= k < |tree| + 1 ==> (tree + [sorted[i]])[k] in sorted[..i + 1]
  {
    var tree' := tree + [sorted[i]];
    forall k | 0 <= k < |tree'| ensures tree'[k] in sorted[..i + 1] {
      if k < |tree| {
        var j :| 0 <= j < i && sorted[..i][j] == tree[k];
        assert sorted[..i + 1][j] == tree'[k];
      } else {
        assert sorted[..i + 1][i] == tree'[k];
      }
    }
  }

  /** The kept edges stay in scan order. */
  lemma KeepInOrder(sorted: seq<Edge>, i: nat, tree: seq<Edge>)
    requires i < |sorted| && SortedByEdgeLess(sorted) && SortedByEdgeLess(tree)
    requires forall k :: 0 <= k < |tree| ==> tree[k] in sorted[..i]
    ensures SortedByEdgeLess(tree + [sorted[i]])
  {
    var tree' := tree + [sorted[i]];
    forall a, b | 0 <= a < b < |tree'| ensures EdgeLess(tree'[a], tree'[b]) {
      if b == |tree| {
        var j :| 0 <= j < i && sorted[..i][j] == tree[a];
        assert sorted[j] == tree'[a];
      } else {
        assert tree'[a] == tree[a] && tree'[b] == tree[b];
      }
    }
  }

  /** An edge between unconnected endpoints closes no cycle. */
  lemma KeepAcyclic(n: nat, tree: seq<Edge>, e: Edge)
    requires Acyclic(n, tree) && e.u < n && e.v < n
    requires !Reachable(AdjOf(n, tree), e.u, e.v)
    ensures Acyclic(n, tree + [e])
  {
    var tree' := tree + [e];
    forall k | 0 <= k < |tree'|
      ensures !Reachable(AdjOf(n, tree'[..k]), tree'[k].u, tree'[k].v)
    {
      assert tree'[..k] == tree[..k];
      if k < |tree| {
        assert tree'[k] == tree[k];
      } else {
        assert tree[..k] == tree;
      }
    }
  }

  /** Keeping an edge whose endpoints are not yet connected extends the tree. */
  lemma KeepTree(n: nat, sorted: seq<Edge>, i: nat, g: Graph, tree: seq<Edge>)
    requires ScanOrder(n, sorted) && TreeSoFar(n, sorted, i, g, tree) && i < |sorted|
    requires !Reachable(g, sorted[i].u, sorted[i].v)
    ensures TreeSoFar(n, sorted, i + 1, AddEdge(g, sorted[i].u, sorted[i].v), tree + [sorted[i]])
  {
    var tree' := tree + [sorted[i]];
    assert tree'[..|tree|] == tree;
    KeepWithinScanned(sorted, i, tree);
    KeepInOrder(sorted, i, tree);
    KeepAcyclic(n, tree, sorted[i]);
  }

  /** Merging the two classes of a kept edge keeps the class invariant. */
  lemma KeepClasses(n: nat, sorted: seq<Edge>, i: nat, roots: seq<nat>, g: Graph, tree: seq<Edge>, w: nat)
    requires i < |sorted| && ClassesSoFar(n, sorted, i, roots, g, tree)
    requires |g| == n && IsGraph(g)
    requires roots[sorted[i].u] != roots[sorted[i].v]
    requires w == roots[sorted[i].u] || w == roots[sorted[i].v]
    ensures ClassesSoFar(n, sorted, i + 1,
      Merge(roots, roots[sorted[i].u], roots[sorted[i].v], w),
      AddEdge(g, sorted[i].u, sorted[i].v), tree + [sorted[i]])
  {
    var e := sorted[i];
    MergeIsComponents(roots, g, e.u, e.v, w);
    MergeRemovesOneClass(roots, e.u, e.v, w);
  }

  /** An edge between two classes is kept: the classes merge, the edge is
      recorded, and it closes no cycle. */
  lemma KruskalKeep(n: nat, sorted: seq<Edge>, i: nat, roots: seq<nat>, g: Graph, tree: seq<Edge>, w: nat)
    requires Progress(n, sorted, i, roots, g, tree) && i < |sorted|
    requires roots[sorted[i].u] != roots[sorted[i].v]
    requires w == roots[sorted[i].u] || w == roots[sorted[i].v]
    ensures Progress(n, sorted, i + 1,
      Merge(roots, roots[sorted[i].u], roots[sorted[i].v], w),
      AddEdge(g, sorted[i].u, sorted[i].v), tree + [sorted[i]])
  {
    KeepTree(n, sorted, i, g, tree);
    KeepClasses(n, sorted, i, roots, g, tree, w);
  }

  /** An edge inside one class is skipped. */
  lemma KruskalSkip(n: nat, sorted: seq<Edge>, i: nat, roots: seq<nat>, g: Graph, tree: seq<Edge>)
    requires Progress(n, sorted, i, roots, g, tree) && i < |sorted|
    requires roots[sorted[i].u] == roots[sorted[i].v]
    ensures Progress(n, sorted, i + 1, roots, g, tree)
  {
    forall k | 0 <= k < |tree| ensures tree[k] in sorted[..i + 1] {
      assert tree[k] in sorted[..i];
      var j :| 0 <= j < i && sorted[..i][j] == tree[k];
      assert sorted[..i + 1][j] == tree[k];
    }
  }

  /** After all edges: one class, so n - 1 edges, and every vertex is
      reachable from vertex 0. */
  lemma KruskalDone(m: Matrix, sorted: seq<Edge>, roots: seq<nat>, g: Graph, tree: seq<Edge>)
    requires IsMatrix(m) && Progress(|m|, sorted, |sorted|, roots, g, tree)
    requires forall i, j :: 0 <= i < j < |m| ==> Edge(m[i][j], i, j) in sorted
    ensures |m| >= 1 ==> |tree| == |m| - 1
    ensures forall x :: 0 <= x < |m| ==> Reachable(g, 0, x)
  {
    var n := |m|;
    if n >= 1 {
      forall x | 0 <= x < n ensures roots[x] == roots[0] {
        if x > 0 {
          assert Edge(m[0][x], 0, x) in sorted;
          var k :| 0 <= k < |sorted| && sorted[k] == Edge(m[0][x], 0, x);
        }
      }
      assert Classes(roots) == {roots[0]};
      forall x | 0 <= x < n ensures Reachable(g, 0, x) {
        assert roots[0] == roots[x];
      }
    }
  }

  lemma CandidatesAppend(m: Matrix, tree: seq<Edge>, e: Edge)
    requires IsMatrix(m) && IsCandidate(m, e)
    requires forall k :: 0 <= k < |tree| ==> IsCandidate(m, tree[k])
    ensures forall k :: 0 <= k < |tree| + 1 ==> IsCandidate(m, (tree + [e])[k])
  {
  }

  /** One iteration of the loop of kruskal_mst: find both roots; if they
      differ, union them and record the edge in both adjacency lists. */
  method ScanEdge(m: Matrix, uf: UnionFind, sorted: seq<Edge>, i: nat, mst: Graph, ghost tree: seq<Edge>)
    returns (mst': Graph, ghost tree': seq<Edge>)
    requires IsMatrix(m) && uf.Valid() && uf.n == |m| && i < |sorted|
    requires Progress(|m|, sorted, i, uf.Partition(), mst, tree)
    requires forall k :: 0 <= k < |sorted| ==> IsCandidate(m, sorted[k])
    requires forall k :: 0 <= k < |tree| ==> IsCandidate(m, tree[k])
    requires KeptSoFar(|m|, sorted, i, tree)
    modifies uf.parent, uf.rank
    ensures uf.Valid()
    ensures tree' == if old(uf.Partition())[sorted[i].u] != old(uf.Partition())[sorted[i].v]
                     then tree + [sorted[i]] else tree
    ensures Progress(|m|, sorted, i + 1, uf.Partition(), mst', tree')
    ensures KeptSoFar(|m|, sorted, i + 1, tree')
    ensures forall k :: 0 <= k < |tree'| ==> IsCandidate(m, tree'[k])
  {
    KeptScan(|m|, sorted, i, uf.Partition(), tree);
    var e := sorted[i];
    var ru := uf.Find(e.u);
    var rv := uf.Find(e.v);
    if ru != rv {
      ghost var before := uf.Partition();
      ghost var winner := if uf.rank[ru] < uf.rank[rv] then rv else ru;
      uf.Union(e.u, e.v);
      KruskalKeep(|m|, sorted, i, before, mst, tree, winner);
      CandidatesAppend(m, tree, e);
      mst' := mst[e.u := mst[e.u] + [e.v]];
      mst' := mst'[e.v := mst'[e.v] + [e.u]];
      tree' := tree + [e];
    } else {
      KruskalSkip(|m|, sorted, i, uf.Partition(), mst, tree);
      mst', tree' := mst, tree;
    }
  }

  /** Sorting keeps every edge a candidate and every pair present. */
  lemma SortKeepsCandidates(m: Matrix, es: seq<Edge>, sorted: seq<Edge>)
    requires IsMatrix(m) && multiset(sorted) == multiset(es)
    requires forall k :: 0 <= k < |es| ==> IsCandidate(m, es[k])
    requires forall i, j :: 0 <= i < j < |m| ==> Edge(m[i][j], i, j) in es
    ensures forall k :: 0 <= k < |sorted| ==> IsCandidate(m, sorted[k])
    ensures forall i, j :: 0 <= i < j < |m| ==> Edge(m[i][j], i, j) in sorted
  {
    forall k | 0 <= k < |sorted| ensures IsCandidate(m, sorted[k]) {
      assert sorted[k] in multiset(es);
      var j :| 0 <= j < |es| && es[j] == sorted[k];
    }
    forall i, j | 0 <= i < j < |m| ensures Edge(m[i][j], i, j) in sorted {
      assert Edge(m[i][j], i, j) in multiset(es);
    }
  }

  /** The list arestas after arestas.sort(key=weight): the candidate edges, every
      pair i < j once, in the order of a stable sort by weight. */
  method SortedCandidates(m: Matrix) returns (sorted: seq<Edge>)
    requires IsMatrix(m)
    ensures forall k :: 0 <= k < |sorted| ==> IsCandidate(m, sorted[k])
    ensures forall i, j :: 0 <= i < j < |m| ==> Edge(m[i][j], i, j) in sorted
    ensures SortedByEdgeLess(sorted) && NondecreasingWeight(sorted)
  {
    var edges := CandidateEdges(m);
    StableSortByWeight(edges);
    sorted := SortByWeight(edges);
    SortKeepsCandidates(m, edges, sorted);
  }

  /** kruskal_mst: the adjacency lists of a spanning tree of the complete
      graph, built by Kruskal's rule from the stably sorted candidates.
      `sorted` is the scan order, every candidate once in the order of
      SortedByEdgeLess, and `tree` lists the kept edges in the order they
      were kept: exactly the edges Kept selects. */
  method KruskalMst(m: Matrix) returns (mst: Graph, ghost tree: seq<Edge>, ghost sorted: seq<Edge>)
    requires IsMatrix(m)
    ensures forall k :: 0 <= k < |sorted| ==> IsCandidate(m, sorted[k])
    ensures forall i, j :: 0 <= i < j < |m| ==> Edge(m[i][j], i, j) in sorted
    ensures SortedByEdgeLess(sorted) && NondecreasingWeight(sorted)
    ensures EndpointsBelow(|m|, sorted) && tree == Kept(|m|, sorted)
    ensures |mst| == |m| && IsGraph(mst)
    ensures forall k :: 0 <= k < |tree| ==> IsCandidate(m, tree[k])
    ensures EndpointsBelow(|m|, tree) && mst == AdjOf(|m|, tree)
    ensures SortedByEdgeLess(tree)
    ensures Acyclic(|m|, tree)
    ensures |m| >= 1 ==> |tree| == |m| - 1 && TotalDegree(mst) == 2 * (|m| - 1)
    ensures forall x :: 0 <= x < |m| ==> Reachable(mst, 0, x)
  {
    var n := |m|;
    var order := SortedCandidates(m);
    sorted := order;
    var uf := new UnionFind(n);
    mst := NoEdges(n);
    tree := [];
    KruskalStart(n, sorted, uf.Partition());
    assert sorted[..0] == [];
    for i := 0 to |order|
      invariant uf.Valid() && uf.n == n && fresh(uf.parent) && fresh(uf.rank)
      invariant Progress(n, sorted, i, uf.Partition(), mst, tree)
      invariant forall k :: 0 <= k < |tree| ==> IsCandidate(m, tree[k])
      invariant KeptSoFar(n, sorted, i, tree)
    {
      mst, tree := ScanEdge(m, uf, order, i, mst, tree);
    }
    assert sorted[..|sorted|] == sorted;
    KruskalDone(m, sorted, uf.Partition(), mst, tree);
    AdjOfDegree(n, tree);
  }
}
