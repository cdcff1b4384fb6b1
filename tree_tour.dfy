/** dfs_mst of mstkruskal.py: a recursive depth-first walk of an adjacency
    list that marks each vertex in visitado the first time it is entered
    and appends it to rota, so that rota lists the vertices in preorder. */
module TreeTour {
  import opened Tours
  import opened Graphs

  /** The marks of visitado: exactly the vertices already on the route. */
  predicate MarksRoute(marks: seq<bool>, route: seq<nat>)
  {
    forall x :: 0 <= x < |marks| ==> (marks[x] <==> x in route)
  }

  /** Every vertex of the route after the first is a neighbour of an
      earlier one. */
  ghost predicate Discovered(g: Graph, route: seq<nat>)
  {
    forall i :: 0 < i < |route| ==> DiscoveredAt(g, route, i)
  }

  /** route[i] is a neighbour of a vertex before it. */
  ghost predicate DiscoveredAt(g: Graph, route: seq<nat>, i: nat)
    requires i < |route|
  {
    exists j :: 0 <= j < i && route[j] < |g| && route[i] in g[route[j]]
  }

  /** Every neighbour of route[i], for i >= lo, is already on the route. */
  ghost predicate FinishedFrom(g: Graph, route: seq<nat>, lo: nat)
  {
    forall i, y :: lo <= i < |route| && route[i] < |g| && y in g[route[i]] ==> y in route
  }

  /** route[i] was entered from route[j] by depth-first search: it is the
      neighbour of route[j] at some position c of its list, every neighbour
      before position c was already on the route, and every vertex between
      j and i had been finished, all its neighbours on the route, before
      route[i] was entered. */
  ghost predicate EnteredFrom(g: Graph, route: seq<nat>, j: nat, i: nat)
  {
    && j < i < |route| && route[j] < |g|
    && (exists c :: 0 <= c < |g[route[j]]| && g[route[j]][c] == route[i] &&
          forall c' :: 0 <= c' < c ==> g[route[j]][c'] in route[..i])
    && (forall k, y :: j < k < i && route[k] < |g| && y in g[route[k]] ==> y in route[..i])
  }

  /** The depth-first rule from position lo on: each later vertex was
      entered from a vertex at or after lo. */
  ghost predicate DepthFirst(g: Graph, route: seq<nat>, lo: nat)
  {
    forall i :: lo < i < |route| ==> EnteredAfter(g, route, lo, i)
  }

  /** route[i] was entered from a vertex at or after position lo. */
  ghost predicate EnteredAfter(g: Graph, route: seq<nat>, lo: nat, i: nat)
  {
    exists j :: lo <= j && EnteredFrom(g, route, j, i)
  }

  /** On the tree 0-1, 0-2, 1-3 the depth-first rule admits the route
      [0, 1, 3, 2] that dfs(0) builds ... */
  lemma DepthFirstExample()
    ensures DepthFirst([[1, 2], [0, 3], [0], [1]], [0, 1, 3, 2], 0)
  {
    var g: Graph := [[1, 2], [0, 3], [0], [1]];
    var r: seq<nat> := [0, 1, 3, 2];
    assert r[..1] == [0] && r[..2] == [0, 1] && r[..3] == [0, 1, 3];
    assert g[r[0]][0] == r[1] && EnteredFrom(g, r, 0, 1);
    assert g[r[1]][1] == r[2] && EnteredFrom(g, r, 1, 2);
    assert g[r[0]][1] == r[3] && EnteredFrom(g, r, 0, 3);
  }

  /** ... and rules out the breadth-first route [0, 1, 2, 3]: vertex 2 is
      entered while 1 still has the unvisited neighbour 3. */
  lemma BreadthFirstExample()
    ensures !DepthFirst([[1, 2], [0, 3], [0], [1]], [0, 1, 2, 3], 0)
  {
    var g: Graph := [[1, 2], [0, 3], [0], [1]];
    var r: seq<nat> := [0, 1, 2, 3];
    assert r[..2] == [0, 1];
    assert !EnteredFrom(g, r, 0, 2) by {
      assert 3 in g[r[1]] && 3 !in r[..2];
    }
    assert !EnteredFrom(g, r, 1, 2);
    assert !EnteredAfter(g, r, 0, 2);
  }

  /** A route that extends another keeps its prefix and its vertices. */
  lemma ExtendsTrans(a: seq<nat>, b: seq<nat>, c: seq<nat>)
    requires |a| <= |b| <= |c| && b[..|a|] == a && c[..|b|] == b
    ensures c[..|a|] == a
    ensures forall x :: x in b ==> x in c
  {
    assert c[..|b|][..|a|] == c[..|a|];
    forall x | x in b ensures x in c {
      var i :| 0 <= i < |b| && b[i] == x;
      assert c[i] == x;
    }
  }

  /** Discovery is kept by a route that extends another and discovers its
      own new vertices. */
  lemma DiscoveredExtends(g: Graph, a: seq<nat>, b: seq<nat>)
    requires |a| <= |b| && b[..|a|] == a && Discovered(g, a)
    requires forall i :: |a| <= i < |b| && 0 < i ==> DiscoveredAt(g, b, i)
    ensures Discovered(g, b)
  {
    forall i | 0 < i < |b| ensures DiscoveredAt(g, b, i) {
      if i < |a| {
        assert b[i] == a[i];
        assert DiscoveredAt(g, a, i);
        var j :| 0 <= j < i && a[j] < |g| && a[i] in g[a[j]];
        assert b[j] == a[j];
      }
    }
  }

  /** What a call dfs(u) does to a route: appends u and then further
      vertices, none twice, each a neighbour of a vertex before it. */
  ghost predicate Grown(g: Graph, route: seq<nat>, after: seq<nat>, u: nat)
  {
    && |after| > |route| && after[..|route|] == route && after[|route|] == u
    && (forall i :: 0 <= i < |after| ==> after[i] < |g|)
    && Distinct(after) && Discovered(g, after)
  }

  /** What dfs(u) needs of the route it extends: vertices of g without
      repetition, discovered along edges, and u, when the route is not
      empty, a neighbour of one of them. */
  ghost predicate ReadyFor(g: Graph, route: seq<nat>, u: nat)
  {
    && (forall i :: 0 <= i < |route| ==> route[i] < |g|)
    && Distinct(route) && Discovered(g, route)
    && (route != [] ==> exists j :: 0 <= j < |route| && u in g[route[j]])
  }

  /** The loop of dfs(u) after some of the neighbours of u: u is on the
      route, and the vertices that follow it are finished. */
  ghost predicate InProgress(g: Graph, route: seq<nat>, cur: seq<nat>, u: nat)
  {
    Grown(g, route, cur, u) && FinishedFrom(g, cur, |route| + 1)
  }

  /** Once every neighbour of u is on the route, u is finished too. */
  lemma ExitStep(g: Graph, route: seq<nat>, cur: seq<nat>, u: nat)
    requires u < |g| && InProgress(g, route, cur, u)
    requires forall j :: 0 <= j < |g[u]| ==> g[u][j] in cur
    ensures Grown(g, route, cur, u) && FinishedFrom(g, cur, |route|)
  {
    forall i, y | |route| <= i < |cur| && cur[i] < |g| && y in g[cur[i]] ensures y in cur {
      if i == |route| {
        var j :| 0 <= j < |g[u]| && g[u][j] == y;
      }
    }
  }

  /** Entering u: the route with u appended is in progress for u. */
  lemma EnterStep(g: Graph, route: seq<nat>, u: nat)
    requires u < |g| && u !in route && ReadyFor(g, route, u)
    ensures InProgress(g, route, route + [u], u)
  {
    var cur := route + [u];
    assert cur[..|route|] == route;
    forall i | |route| <= i < |cur| && 0 < i ensures DiscoveredAt(g, cur, i) {
      var j :| 0 <= j < |route| && u in g[route[j]];
      assert cur[j] == route[j];
    }
    DiscoveredExtends(g, route, cur);
  }

  /** Entering u shrinks the set of vertices not yet on the route. */
  lemma UnseenShrinks(g: Graph, route: seq<nat>, cur: seq<nat>, u: nat)
    requires |route| < |cur| && cur[..|route|] == route && cur[|route|] == u
    requires u !in route && u < |g|
    ensures (set x | 0 <= x < |g| && x !in cur) < (set x | 0 <= x < |g| && x !in route)
  {
    ghost var unseen := set x | 0 <= x < |g| && x !in route;
    ghost var unseen' := set x | 0 <= x < |g| && x !in cur;
    forall x | x in route ensures x in cur {
      var i :| 0 <= i < |route| && route[i] == x;
      assert cur[i] == x;
    }
    assert unseen' <= unseen;
    assert u in unseen && u !in unseen';
  }

  /** A neighbour v of u not yet on the route may be entered. */
  lemma ChildReady(g: Graph, route: seq<nat>, cur: seq<nat>, u: nat, v: nat)
    requires InProgress(g, route, cur, u) && v in g[u]
    ensures ReadyFor(g, cur, v)
  {
    assert cur[|route|] == u;
  }

  /** A recursive call dfs(v) on a neighbour v of u keeps the loop state. */
  lemma ChildStep(g: Graph, route: seq<nat>, before: seq<nat>, after: seq<nat>, u: nat, v: nat)
    requires IsGraph(g) && u < |g| && v in g[u]
    requires InProgress(g, route, before, u)
    requires Grown(g, before, after, v) && FinishedFrom(g, after, |before|)
    ensures InProgress(g, route, after, u)
    ensures v in after && forall x :: x in before ==> x in after
  {
    ExtendsTrans(route, before, after);
    forall i, y | |route| + 1 <= i < |after| && after[i] < |g| && y in g[after[i]]
      ensures y in after
    {
      if i < |before| {
        assert after[i] == before[i];
      }
    }
    assert after[|before|] == v;
  }

  /** The call dfs(v) on the neighbour of u at position c keeps the
      depth-first rule of dfs(u): v itself is entered from u, after the
      neighbours before it and after all the vertices finished since u. */
  lemma DepthFirstStep(g: Graph, route: seq<nat>, before: seq<nat>, after: seq<nat>, u: nat, c: nat)
    requires IsGraph(g) && u < |g| && c < |g[u]|
    requires forall c' :: 0 <= c' < c ==> g[u][c'] in before
    requires InProgress(g, route, before, u) && DepthFirst(g, before, |route|)
    requires Grown(g, before, after, g[u][c]) && DepthFirst(g, after, |before|)
    ensures DepthFirst(g, after, |route|)
  {
    forall i | |route| < i < |after| ensures EnteredAfter(g, after, |route|, i) {
      if i < |before| {
        assert EnteredAfter(g, before, |route|, i);
        var j :| |route| <= j && EnteredFrom(g, before, j, i);
        OldEntry(g, before, after, j, i);
      } else if i == |before| {
        assert after[..i] == before;
        assert after[|route|] == before[|route|] == u;
        forall k | |route| < k < i ensures after[k] == before[k] {
        }
        assert EnteredFrom(g, after, |route|, i);
      } else {
        assert EnteredAfter(g, after, |before|, i);
        var j :| |before| <= j && EnteredFrom(g, after, j, i);
      }
    }
  }

  /** An entry made before the call stays an entry of the longer route. */
  lemma OldEntry(g: Graph, before: seq<nat>, after: seq<nat>, j: nat, i: nat)
    requires |before| <= |after| && after[..|before|] == before
    requires EnteredFrom(g, before, j, i)
    ensures EnteredFrom(g, after, j, i)
  {
    assert after[..i] == before[..i];
    assert after[j] == before[j] && after[i] == before[i];
    forall k | j < k < i ensures after[k] == before[k] {
    }
  }

  /** What dfs(u) hands back: the route grown by u and what the calls
      append, every new vertex finished, all in depth-first order. */
  ghost predicate Walked(g: Graph, route: seq<nat>, after: seq<nat>, u: nat)
  {
    Grown(g, route, after, u) && FinishedFrom(g, after, |route|) && DepthFirst(g, after, |route|)
  }

  /** The loop of dfs(u) before position k of g[u]: u is in progress, the
      depth-first rule holds, and the neighbours before position k are on
      the route. */
  ghost predicate Visiting(g: Graph, route: seq<nat>, cur: seq<nat>, u: nat, k: nat)
  {
    && u < |g| && k <= |g[u]|
    && InProgress(g, route, cur, u) && DepthFirst(g, cur, |route|)
    && (forall j :: 0 <= j < k ==> g[u][j] in cur)
  }

  /** Marking u in visitado as u is appended keeps the marks exact. */
  lemma MarkStep(marks: seq<bool>, marks': seq<bool>, route: seq<nat>, u: nat)
    requires u < |marks| && marks' == marks[u := true] && MarksRoute(marks, route)
    ensures MarksRoute(marks', route + [u])
  {
  }

  lemma EnterLoop(g: Graph, route: seq<nat>, u: nat)
    requires u < |g| && u !in route && ReadyFor(g, route, u)
    ensures Visiting(g, route, route + [u], u, 0)
  {
    EnterStep(g, route, u);
  }

  /** The neighbour at position k, not yet on the route, may be entered,
      and entering it shrinks the set of vertices not on the route. */
  lemma ChildEntry(g: Graph, route: seq<nat>, cur: seq<nat>, u: nat, k: nat)
    requires Visiting(g, route, cur, u, k) && k < |g[u]| && g[u][k] !in cur
    ensures ReadyFor(g, cur, g[u][k])
    ensures (set x | 0 <= x < |g| && x !in cur) < (set x | 0 <= x < |g| && x !in route)
  {
    ChildReady(g, route, cur, u, g[u][k]);
    UnseenShrinks(g, route, cur, u);
  }

  lemma ChildDone(g: Graph, route: seq<nat>, before: seq<nat>, after: seq<nat>, u: nat, k: nat)
    requires IsGraph(g) && Visiting(g, route, before, u, k) && k < |g[u]|
    requires Walked(g, before, after, g[u][k])
    ensures Visiting(g, route, after, u, k + 1)
  {
    ChildStep(g, route, before, after, u, g[u][k]);
    DepthFirstStep(g, route, before, after, u, k);
  }

  lemma ChildSeen(g: Graph, route: seq<nat>, cur: seq<nat>, u: nat, k: nat)
    requires Visiting(g, route, cur, u, k) && k < |g[u]| && g[u][k] in cur
    ensures Visiting(g, route, cur, u, k + 1)
  {
  }

  lemma LeaveLoop(g: Graph, route: seq<nat>, cur: seq<nat>, u: nat)
    requires u < |g| && Visiting(g, route, cur, u, |g[u]|)
    ensures Walked(g, route, cur, u)
  {
    ExitStep(g, route, cur, u);
  }

  /** dfs(u): mark u, append it, then enter every unvisited neighbour in
      the order of g[u]. The route grows by u followed by everything the
      calls append, in depth-first order; the new vertices have all their
      neighbours on the route when the call returns. Python's nested
      function updates rota in place; here the route is passed in and
      handed back. */
  method Dfs(g: Graph, visited: array<bool>, route: seq<nat>, u: nat) returns (route': seq<nat>)
    requires IsGraph(g) && visited.Length == |g| && u < |g| && !visited[u]
    requires MarksRoute(visited[..], route) && ReadyFor(g, route, u)
    modifies visited
    ensures Walked(g, route, route', u)
    ensures MarksRoute(visited[..], route')
    decreases set x | 0 <= x < |g| && x !in route
  {
    assert u !in route;
    ghost var marks := visited[..];
    visited[u] := true;
    route' := route + [u];
    MarkStep(marks, visited[..], route, u);
    EnterLoop(g, route, u);
    for k := 0 to |g[u]|
      invariant Visiting(g, route, route', u, k)
      invariant MarksRoute(visited[..], route')
    {
      var v := g[u][k];
      if !visited[v] {
        assert v !in route';
        ChildEntry(g, route, route', u, k);
        ghost var before := route';
        route' := Dfs(g, visited, route', v);
        ChildDone(g, route, before, route', u, k);
      } else {
        assert v in route';
        ChildSeen(g, route, route', u, k);
      }
    }
    LeaveLoop(g, route, route', u);
  }

  /** Along a discovered route every vertex is reachable from the first. */
  lemma {:induction false} DiscoveredReachable(g: Graph, route: seq<nat>, i: nat)
    requires IsGraph(g) && Discovered(g, route) && i < |route|
    requires forall k :: 0 <= k < |route| ==> route[k] < |g|
    ensures Reachable(g, route[0], route[i])
    decreases i
  {
    if i == 0 {
      ReachableRefl(g, route[0]);
    } else {
      assert DiscoveredAt(g, route, i);
      var j :| 0 <= j < i && route[j] < |g| && route[i] in g[route[j]];
      DiscoveredReachable(g, route, j);
      ReachableEdge(g, route[j], route[i]);
      ReachableTrans(g, route[0], route[j], route[i]);
    }
  }

  /** dfs_mst(mst, inicio): the route starts at inicio, visits no vertex
      twice, lists the vertices in the order depth-first search enters
      them, and holds exactly the vertices reachable from inicio. An empty graph makes the source index
      visitado[inicio] out of range, hence start < |g|. */
  method DfsMst(g: Graph, start: nat) returns (route: seq<nat>)
    requires IsGraph(g) && start < |g|
    ensures |route| >= 1 && route[0] == start
    ensures forall i :: 0 <= i < |route| ==> route[i] < |g|
    ensures Distinct(route) && Discovered(g, route) && DepthFirst(g, route, 0)
    ensures forall x :: 0 <= x < |g| ==> (x in route <==> Reachable(g, start, x))
  {
    var visited := new bool[|g|](_ => false);
    route := Dfs(g, visited, [], start);
    var s := set i | 0 <= i < |route| :: route[i];
    forall a, b | a in s && a < |g| && b in g[a] ensures b in s {
      var i :| 0 <= i < |route| && route[i] == a;
      assert b in route;
    }
    forall x | 0 <= x < |g| ensures x in route <==> Reachable(g, start, x) {
      if x in route {
        var i :| 0 <= i < |route| && route[i] == x;
        DiscoveredReachable(g, route, i);
      }
      if Reachable(g, start, x) {
        assert route[0] in s;
        ReachableStaysInClosed(g, s, start, x);
      }
    }
  }
}
