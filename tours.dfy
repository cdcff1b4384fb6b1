/** The cost model shared by both solvers: distance matrices, tours and the
    cost of a closed tour (calcular_custo_rota in both source files). */
module Tours {

  /** Row i holds the weights of the edges leaving vertex i. Weights are exact
      integers rather than floating-point numbers. */
  type Matrix = seq<seq<int>>

  /** Python's optional value, used for the "no best tour yet" state. */
  datatype Option<T> = None | Some(value: T)

  /** Every row has an entry for each vertex. The solvers read only the
      first |m| entries of a row, so longer rows are allowed; a shorter one
      makes them index out of range. */
  predicate IsMatrix(m: Matrix)
  {
    forall i :: 0 <= i < |m| ==> |m[i]| >= |m|
  }

  /** Every vertex of the route indexes a row of the matrix. */
  predicate IsRoute(m: Matrix, r: seq<nat>)
  {
    forall i :: 0 <= i < |r| ==> r[i] < |m|
  }

  /** The list [lo, lo + 1, ..., hi - 1], Python's list(range(lo, hi)). */
  function Range(lo: nat, hi: nat): (r: seq<nat>)
    requires lo <= hi
    ensures |r| == hi - lo
    ensures forall i :: 0 <= i < |r| ==> r[i] == lo + i
  {
    seq(hi - lo, i requires 0 <= i < hi - lo => lo + i)
  }

  predicate Distinct(s: seq<nat>)
  {
    forall i, j :: 0 <= i < j < |s| ==> s[i] != s[j]
  }

  /** A tour over n vertices: a permutation of [0, n). The bound on the
      entries follows from the multiset equation; it is stated so that a tour
      can be handed to CycleCost without further proof. */
  predicate IsTour(t: seq<nat>, n: nat)
  {
    (forall i :: 0 <= i < |t| ==> t[i] < n) && multiset(t) == multiset(Range(0, n))
  }

  /** Sum of the legs r[0]->r[1], ..., r[|r|-2]->r[|r|-1] of an open path. */
  function PathCost(m: Matrix, r: seq<nat>): int
    requires IsMatrix(m) && IsRoute(m, r)
    decreases |r|
  {
    if |r| <= 1 then 0
    else PathCost(m, r[..|r| - 1]) + m[r[|r| - 2]][r[|r| - 1]]
  }

  /** Cost of the closed tour: the open path plus the leg back to the start. */
  function CycleCost(m: Matrix, r: seq<nat>): int
    requires IsMatrix(m) && IsRoute(m, r) && |r| > 0
  {
    PathCost(m, r) + m[r[|r| - 1]][r[0]]
  }

  /** calcular_custo_rota: accumulates the consecutive legs, then adds the
      leg from the last vertex back to the first. An empty route makes the
      source index rota[-1] of an empty list, hence |r| > 0. */
  method TourCost(m: Matrix, r: seq<nat>) returns (cost: int)
    requires IsMatrix(m) && IsRoute(m, r) && |r| > 0
    ensures cost == CycleCost(m, r)
  {
    cost := 0;
    for i := 0 to |r| - 1
      invariant cost == PathCost(m, r[..i + 1])
    {
      assert r[..i + 2][..i + 1] == r[..i + 1];
      cost := cost + m[r[i]][r[i + 1]];
    }
    assert r[..|r|] == r;
    cost := cost + m[r[|r| - 1]][r[0]];
  }

  /** Joining two open paths adds exactly the leg between them. */
  lemma {:induction false} PathCostAppend(m: Matrix, a: seq<nat>, b: seq<nat>)
    requires IsMatrix(m) && IsRoute(m, a) && IsRoute(m, b) && |a| > 0 && |b| > 0
    ensures IsRoute(m, a + b)
    ensures PathCost(m, a + b) == PathCost(m, a) + m[a[|a| - 1]][b[0]] + PathCost(m, b)
    decreases |b|
  {
    var ab := a + b;
    assert ab[..|ab| - 1] == a + b[..|b| - 1];
    if |b| > 1 {
      PathCostAppend(m, a, b[..|b| - 1]);
    }
  }

  /** A closed tour costs the same from whichever vertex it is started:
      this is why the exact solver may fix vertex 0 as the start. */
  lemma CycleCostRotation(m: Matrix, r: seq<nat>, k: nat)
    requires IsMatrix(m) && IsRoute(m, r) && k < |r|
    ensures IsRoute(m, r[k..] + r[..k]) && |r[k..] + r[..k]| == |r|
    ensures CycleCost(m, r[k..] + r[..k]) == CycleCost(m, r)
  {
    if k == 0 {
      assert r[k..] + r[..k] == r;
    } else {
      var a, b := r[..k], r[k..];
      assert a + b == r;
      PathCostAppend(m, a, b);
      PathCostAppend(m, b, a);
    }
  }

  /** A one-vertex tour is the self-loop m[v][v]. */
  lemma CycleCostSingleton(m: Matrix, v: nat)
    requires IsMatrix(m) && v < |m|
    ensures IsRoute(m, [v]) && CycleCost(m, [v]) == m[v][v]
  {
  }

  /** The reversal of a sequence. */
  function Reverse(s: seq<nat>): (r: seq<nat>)
    ensures |r| == |s|
    ensures forall i :: 0 <= i < |s| ==> r[i] == s[|s| - 1 - i]
  {
    if s == [] then [] else Reverse(s[1..]) + [s[0]]
  }

  predicate IsSymmetric(m: Matrix)
    requires IsMatrix(m)
  {
    forall i, j :: 0 <= i < |m| && 0 <= j < |m| ==> m[i][j] == m[j][i]
  }

  /** On a symmetric matrix an open path costs the same walked backwards. */
  lemma {:induction false} PathCostReverse(m: Matrix, r: seq<nat>)
    requires IsMatrix(m) && IsSymmetric(m) && IsRoute(m, r)
    ensures IsRoute(m, Reverse(r))
    ensures PathCost(m, Reverse(r)) == PathCost(m, r)
    decreases |r|
  {
    if |r| > 1 {
      var front := r[..|r| - 1];
      PathCostReverse(m, front);
      var rf := Reverse(front);
      assert Reverse(r) == [r[|r| - 1]] + rf;
      PathCostAppend(m, [r[|r| - 1]], rf);
    }
  }

  /** On a symmetric matrix a closed tour costs the same in both directions. */
  lemma CycleCostReverse(m: Matrix, r: seq<nat>)
    requires IsMatrix(m) && IsSymmetric(m) && IsRoute(m, r) && |r| > 0
    ensures IsRoute(m, Reverse(r))
    ensures CycleCost(m, Reverse(r)) == CycleCost(m, r)
  {
    PathCostReverse(m, r);
  }

  /** Number of occurrences of x in a sequence without repetitions. */
  lemma {:induction false} DistinctMultiplicity(s: seq<nat>, x: nat)
    requires Distinct(s)
    ensures multiset(s)[x] == if x in s then 1 else 0
    decreases |s|
  {
    if s != [] {
      assert s == [s[0]] + s[1..];
      DistinctMultiplicity(s[1..], x);
    }
  }

  /** IsTour is exactly "n distinct vertices, each below n". */
  lemma TourCharacterization(t: seq<nat>, n: nat)
    ensures IsTour(t, n) <==>
      (|t| == n && Distinct(t) && forall i :: 0 <= i < |t| ==> t[i] < n)
  {
    var rg := Range(0, n);
    assert Distinct(rg);
    if IsTour(t, n) {
      assert |t| == |multiset(t)| == n;
      forall i, j | 0 <= i < j < |t| ensures t[i] != t[j] {
        if t[i] == t[j] {
          var x := t[i];
          assert t == t[..j] + t[j..];
          assert x in t[..j] && x in t[j..];
          assert multiset(t)[x] == multiset(t[..j])[x] + multiset(t[j..])[x] >= 2;
          DistinctMultiplicity(rg, x);
          assert false;
        }
      }
    }
    if |t| == n && Distinct(t) && forall i :: 0 <= i < |t| ==> t[i] < n {
      forall x: nat ensures multiset(t)[x] == multiset(rg)[x] {
        DistinctMultiplicity(t, x);
        DistinctMultiplicity(rg, x);
        if x in rg {
          // rg has n distinct values, all below n, as has t; count the
          // missing ones to see that x occurs in t.
          AllBelowOccur(t, n, x);
        }
        if x in t {
          var i :| 0 <= i < |t| && t[i] == x;
          assert rg[x] == x;
        }
      }
      assert multiset(t) == multiset(rg);
    }
  }

  /** A route without repetitions that visits every vertex below n, and no
      other, is a tour. */
  lemma CoverIsTour(t: seq<nat>, n: nat)
    requires Distinct(t) && (forall i :: 0 <= i < |t| ==> t[i] < n)
    requires forall x :: 0 <= x < n ==> x in t
    ensures IsTour(t, n) && |t| == n
  {
    var rg := Range(0, n);
    assert Distinct(rg);
    forall x: nat ensures multiset(t)[x] == multiset(rg)[x] {
      DistinctMultiplicity(t, x);
      DistinctMultiplicity(rg, x);
      if x < n {
        assert rg[x] == x;
      }
      if x in t {
        var i :| 0 <= i < |t| && t[i] == x;
        assert rg[x] == x;
      }
    }
    assert multiset(t) == multiset(rg);
    assert |t| == |multiset(t)| == |multiset(rg)| == n;
  }

  /** Pigeonhole: n distinct values below n include every value below n. */
  lemma AllBelowOccur(t: seq<nat>, n: nat, x: nat)
    requires |t| == n && Distinct(t) && (forall i :: 0 <= i < |t| ==> t[i] < n)
    requires x < n
    ensures x in t
  {
    var rg := Range(0, n);
    var vals := set i | 0 <= i < |t| :: t[i];
    var below := set i | 0 <= i < |rg| :: rg[i];
    forall y | y in vals ensures y in below {
      var i :| 0 <= i < |t| && t[i] == y;
      assert rg[y] == y;
    }
    assert rg[x] == x;
    DistinctCard(t);
    DistinctCard(rg);
    if x !in t {
      assert vals <= below - {x};
      SubsetCard(vals, below - {x});
      assert false;
    }
  }

  lemma SubsetCard(a: set<nat>, b: set<nat>)
    requires a <= b
    ensures |a| <= |b|
  {
    assert b == a + (b - a);
  }

  /** A sequence without repetitions has as many distinct values as entries. */
  lemma {:induction false} DistinctCard(t: seq<nat>)
    requires Distinct(t)
    ensures |set i | 0 <= i < |t| :: t[i]| == |t|
    decreases |t|
  {
    if t != [] {
      var front := t[..|t| - 1];
      DistinctCard(front);
      var sf := set i | 0 <= i < |front| :: front[i];
      var st := set i | 0 <= i < |t| :: t[i];
      assert st == sf + {t[|t| - 1]};
      assert t[|t| - 1] !in sf;
    }
  }

}
