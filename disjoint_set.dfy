/** The disjoint-set forest of mstkruskal.py (class UnionFind): a parent list
    and a rank list, find with path compression and union by rank.

    The forest is reasoned about on the values of the two lists: Root follows
    parent links to a representative, and Roots lists the representative of
    every element. The class's methods tie their arrays to these functions. */
module DisjointSet {

  /** The largest rank (0 for no element); it bounds every rank, which gives
      the recursion of Root a measure. */
  function MaxRank(rk: seq<nat>): (top: nat)
    ensures forall i :: 0 <= i < |rk| ==> rk[i] <= top
  {
    if rk == [] then 0
    else
      var rest := MaxRank(rk[1..]);
      assert forall i :: 1 <= i < |rk| ==> rk[i] == rk[1..][i - 1];
      if rk[0] > rest then rk[0] else rest
  }

  /** The forest invariant: parents are elements, and ranks grow strictly
      from a non-root element to its parent. It is what makes find terminate. */
  predicate IsForest(p: seq<nat>, rk: seq<nat>)
  {
    && |p| == |rk|
    && (forall x :: 0 <= x < |p| ==> p[x] < |p|)
    && (forall x :: 0 <= x < |p| && p[x] != x ==> rk[x] < rk[p[x]])
  }

  /** The representative reached from x by following parent links. */
  function Root(p: seq<nat>, rk: seq<nat>, x: nat): (r: nat)
    requires IsForest(p, rk) && x < |p|
    ensures r < |p| && p[r] == r
    ensures rk[x] <= rk[r]
    ensures p[x] == x ==> r == x
    ensures p[x] != x ==> rk[x] < rk[r]
    decreases MaxRank(rk) - rk[x]
  {
    if p[x] == x then x else Root(p, rk, p[x])
  }

  /** The representative of every element, in element order. */
  function Roots(p: seq<nat>, rk: seq<nat>): (roots: seq<nat>)
    requires IsForest(p, rk)
    ensures |roots| == |p|
    ensures forall x :: 0 <= x < |p| ==> roots[x] == Root(p, rk, x)
  {
    seq(|p|, x requires 0 <= x < |p| => Root(p, rk, x))
  }

  /** The partition after merging the classes a and b under representative w. */
  function Merge(roots: seq<nat>, a: nat, b: nat, w: nat): (merged: seq<nat>)
    ensures |merged| == |roots|
    ensures forall x :: 0 <= x < |roots| ==>
      merged[x] == if roots[x] == a || roots[x] == b then w else roots[x]
  {
    seq(|roots|, x requires 0 <= x < |roots| =>
      if roots[x] == a || roots[x] == b then w else roots[x])
  }

  /** The classes of a partition, named by their representatives. */
  function Classes(roots: seq<nat>): set<nat>
  {
    set x | 0 <= x < |roots| :: roots[x]
  }

  /** Re-pointing one element straight at its root keeps the forest invariant. */
  lemma CompressKeepsForest(p: seq<nat>, rk: seq<nat>, y: nat)
    requires IsForest(p, rk) && y < |p|
    ensures IsForest(p[y := Root(p, rk, y)], rk)
  {
  }

  /** Path compression: re-pointing an element at its root changes the root
      of no element. */
  lemma {:induction false} CompressKeepsRoot(p: seq<nat>, rk: seq<nat>, y: nat, x: nat)
    requires IsForest(p, rk) && y < |p| && x < |p|
    ensures IsForest(p[y := Root(p, rk, y)], rk)
    ensures Root(p[y := Root(p, rk, y)], rk, x) == Root(p, rk, x)
    decreases MaxRank(rk) - rk[x]
  {
    CompressKeepsForest(p, rk, y);
    var q := p[y := Root(p, rk, y)];
    if x == y {
      var r := Root(p, rk, y);
      if r != y {
        assert q[r] == r;
      }
    } else if p[x] != x {
      CompressKeepsRoot(p, rk, y, p[x]);
    }
  }

  /** Path compression, for every element at once. */
  lemma CompressKeepsRoots(p: seq<nat>, rk: seq<nat>, y: nat)
    requires IsForest(p, rk) && y < |p|
    ensures IsForest(p[y := Root(p, rk, y)], rk)
    ensures Roots(p[y := Root(p, rk, y)], rk) == Roots(p, rk)
  {
    CompressKeepsForest(p, rk, y);
    forall x | 0 <= x < |p|
      ensures Root(p[y := Root(p, rk, y)], rk, x) == Root(p, rk, x)
    {
      CompressKeepsRoot(p, rk, y, x);
    }
  }

  /** The conditions under which a union links root a under root b: the new
      ranks differ from the old only at b, never decrease, and put a below b. */
  predicate LinkRanks(p: seq<nat>, rk: seq<nat>, a: nat, b: nat, rk': seq<nat>)
    requires IsForest(p, rk) && a < |p| && b < |p|
  {
    && p[a] == a && p[b] == b && a != b
    && |rk'| == |rk|
    && (forall z :: 0 <= z < |rk| && z != b ==> rk'[z] == rk[z])
    && rk'[b] >= rk[b]
    && rk'[a] < rk'[b]
  }

  lemma LinkKeepsForest(p: seq<nat>, rk: seq<nat>, a: nat, b: nat, rk': seq<nat>)
    requires IsForest(p, rk) && a < |p| && b < |p| && LinkRanks(p, rk, a, b, rk')
    ensures IsForest(p[a := b], rk')
  {
  }

  /** Linking root a under root b moves exactly the class of a into the class
      of b. */
  lemma {:induction false} LinkRoot(p: seq<nat>, rk: seq<nat>, a: nat, b: nat, rk': seq<nat>, x: nat)
    requires IsForest(p, rk) && a < |p| && b < |p| && x < |p| && LinkRanks(p, rk, a, b, rk')
    ensures IsForest(p[a := b], rk')
    ensures Root(p[a := b], rk', x) == if Root(p, rk, x) == a then b else Root(p, rk, x)
    decreases MaxRank(rk) - rk[x]
  {
    LinkKeepsForest(p, rk, a, b, rk');
    if p[x] != x {
      LinkRoot(p, rk, a, b, rk', p[x]);
    }
  }

  /** Linking, for every element at once; the merged class is named b. */
  lemma LinkRoots(p: seq<nat>, rk: seq<nat>, a: nat, b: nat, rk': seq<nat>)
    requires IsForest(p, rk) && a < |p| && b < |p| && LinkRanks(p, rk, a, b, rk')
    ensures IsForest(p[a := b], rk')
    ensures Roots(p[a := b], rk') == Merge(Roots(p, rk), a, b, b)
  {
    LinkKeepsForest(p, rk, a, b, rk');
    forall x | 0 <= x < |p|
      ensures Root(p[a := b], rk', x) == Merge(Roots(p, rk), a, b, b)[x]
    {
      LinkRoot(p, rk, a, b, rk', x);
    }
  }

  /** The root that survives a union of roots a and b: the one of higher
      rank, a on a tie. */
  function Winner(rk: seq<nat>, a: nat, b: nat): nat
    requires a < |rk| && b < |rk|
  {
    if rk[a] < rk[b] then b else a
  }

  /** The parent list after union links two different roots a and b. */
  function LinkedParents(p: seq<nat>, rk: seq<nat>, a: nat, b: nat): seq<nat>
    requires a < |p| && b < |p| && |rk| == |p|
  {
    if rk[a] < rk[b] then p[a := b] else p[b := a]
  }

  /** The rank list after union links two different roots a and b. */
  function LinkedRanks(rk: seq<nat>, a: nat, b: nat): seq<nat>
    requires a < |rk| && b < |rk|
  {
    if rk[a] == rk[b] then rk[a := rk[a] + 1] else rk
  }

  /** Union by rank, on values: linking two different roots keeps the forest
      invariant and merges their classes under the winner. */
  lemma UnionLink(p: seq<nat>, rk: seq<nat>, a: nat, b: nat)
    requires IsForest(p, rk) && a < |p| && b < |p| && p[a] == a && p[b] == b && a != b
    ensures IsForest(LinkedParents(p, rk, a, b), LinkedRanks(rk, a, b))
    ensures Roots(LinkedParents(p, rk, a, b), LinkedRanks(rk, a, b))
      == Merge(Roots(p, rk), a, b, Winner(rk, a, b))
  {
    var roots := Roots(p, rk);
    if rk[a] < rk[b] {
      LinkRoots(p, rk, a, b, rk);
    } else if rk[a] > rk[b] {
      LinkRoots(p, rk, b, a, rk);
      assert Merge(roots, b, a, a) == Merge(roots, a, b, a);
    } else {
      LinkRoots(p, rk, b, a, rk[a := rk[a] + 1]);
      assert Merge(roots, b, a, a) == Merge(roots, a, b, a);
    }
  }

  /** Merging two different classes removes exactly one class. */
  lemma MergeRemovesOneClass(roots: seq<nat>, u: nat, v: nat, w: nat)
    requires u < |roots| && v < |roots| && roots[u] != roots[v]
    requires w == roots[u] || w == roots[v]
    ensures |Classes(Merge(roots, roots[u], roots[v], w))| == |Classes(roots)| - 1
  {
    var a, b := roots[u], roots[v];
    var gone := if w == a then b else a;
    var merged := Merge(roots, a, b, w);
    forall c | c in Classes(merged) ensures c in Classes(roots) - {gone} {
      var x :| 0 <= x < |merged| && merged[x] == c;
      if roots[x] == a || roots[x] == b {
        assert c == w && (w == roots[u] || w == roots[v]);
      } else {
        assert c == roots[x];
      }
    }
    forall c | c in Classes(roots) - {gone} ensures c in Classes(merged) {
      var x :| 0 <= x < |roots| && roots[x] == c;
      if c == w {
        assert merged[x] == c;
      } else {
        assert merged[x] == c;
      }
    }
    assert Classes(merged) == Classes(roots) - {gone};
    assert gone == roots[u] || gone == roots[v];
  }

  /** n singleton classes: sizes of the identity partition. */
  lemma {:induction false} IdentityClasses(roots: seq<nat>)
    requires forall x :: 0 <= x < |roots| ==> roots[x] == x
    ensures |Classes(roots)| == |roots|
    decreases |roots|
  {
    if roots != [] {
      var front := roots[..|roots| - 1];
      IdentityClasses(front);
      forall c | c in Classes(roots) ensures c in Classes(front) + {|roots| - 1} {
        var x :| 0 <= x < |roots| && roots[x] == c;
        if x < |front| { assert front[x] == c; }
      }
      forall c | c in Classes(front) ensures c in Classes(roots) {
        var x :| 0 <= x < |front| && front[x] == c;
        assert roots[x] == c;
      }
      assert roots[|roots| - 1] == |roots| - 1;
      assert Classes(roots) == Classes(front) + {|roots| - 1};
      assert |roots| - 1 !in Classes(front);
    }
  }

  /** A union-find structure over the elements [0, n). */
  class UnionFind {
    const n: nat
    const parent: array<nat>
    const rank: array<nat>

    ghost predicate Valid()
      reads parent, rank
    {
      && parent.Length == n && rank.Length == n && parent != rank
      && IsForest(parent[..], rank[..])
    }

    /** The class of every element, by representative. */
    ghost function Partition(): (roots: seq<nat>)
      reads parent, rank
      requires Valid()
      ensures |roots| == n
    {
      Roots(parent[..], rank[..])
    }

    /** UnionFind(n): every element is its own parent, every rank is 0. */
    constructor (size: nat)
      ensures Valid() && n == size && fresh(parent) && fresh(rank)
      ensures forall x :: 0 <= x < size ==> parent[x] == x && rank[x] == 0
      ensures forall x :: 0 <= x < size ==> Partition()[x] == x
    {
      n := size;
      parent := new nat[size](x => x);
      rank := new nat[size](_ => 0);
    }

    /** find: returns the root of u and re-points every element on the path
        from u straight at that root. */
    method Find(u: nat) returns (r: nat)
      requires Valid() && u < n
      modifies parent
      ensures Valid()
      ensures r == old(Root(parent[..], rank[..], u)) && parent[r] == r
      ensures Partition() == old(Partition())
      ensures forall x :: 0 <= x < n ==>
        parent[x] == old(parent[x]) || parent[x] == old(Root(parent[..], rank[..], x))
      decreases MaxRank(rank[..]) - rank[u]
    {
      if parent[u] != u {
        var top := Find(parent[u]);
        ghost var p := parent[..];
        assert Root(p, rank[..], u) == top;
        CompressKeepsRoots(p, rank[..], u);
        parent[u] := top;
        assert parent[..] == p[u := top];
      }
      r := parent[u];
    }

    /** union: finds both roots; when they differ, hangs the root of lower
        rank under the other, the root of u winning a tie and gaining one rank. */
    method Union(u: nat, v: nat)
      requires Valid() && u < n && v < n
      modifies parent, rank
      ensures Valid()
      ensures
        var before := old(Partition());
        var ru, rv := before[u], before[v];
        var winner := if old(rank[ru]) < old(rank[rv]) then rv else ru;
        && Partition() == Merge(before, ru, rv, winner)
        && rank[..] == if ru != rv && old(rank[ru]) == old(rank[rv])
                       then old(rank[..])[ru := old(rank[ru]) + 1]
                       else old(rank[..])
      ensures Partition()[u] == Partition()[v]
      ensures old(Partition()[u] == Partition()[v]) ==>
        Partition() == old(Partition()) && rank[..] == old(rank[..])
    {
      ghost var before := Partition();
      var ru := Find(u);
      var rv := Find(v);
      ghost var p := parent[..];
      ghost var rk := rank[..];
      if ru != rv {
        UnionLink(p, rk, ru, rv);
        if rank[ru] < rank[rv] {
          parent[ru] := rv;
        } else if rank[ru] > rank[rv] {
          parent[rv] := ru;
        } else {
          parent[rv] := ru;
          rank[ru] := rank[ru] + 1;
        }
        assert parent[..] == LinkedParents(p, rk, ru, rv);
        assert rank[..] == LinkedRanks(rk, ru, rv);
      } else {
        assert Merge(before, ru, rv, ru) == before;
      }
    }
  }
}
