/** tsp_forca_bruta of bruteforce.py: fix vertex 0, price [0] + perm for
    every permutation perm of the other vertices, and keep the first tour
    of strictly smallest cost. */
module BruteForce {
  import opened Tours
  import opened Perms

  /** melhor_custo: float('inf') until a first tour is priced. */
  datatype Bound = Infinite | Finite(value: int)

  /** custo < melhor_custo, with every cost below infinity. */
  predicate Below(c: int, b: Bound)
  {
    b.Infinite? || c < b.value
  }

  /** The tours the loop prices, in order: [0] + perm for each perm of
      [1, n). Each is a tour of n vertices that starts at 0. */
  function Candidates(n: nat): (cs: seq<seq<nat>>)
    requires n >= 1
    ensures |cs| > 0
    ensures forall k :: 0 <= k < |cs| ==> |cs[k]| == n && cs[k][0] == 0 && IsTour(cs[k], n)
  {
    var ps := Permutations(Range(1, n));
    assert Range(0, n) == [0] + Range(1, n);
    var cs := Prepend(0, ps);
    assert forall k :: 0 <= k < |cs| ==> multiset(cs[k]) == multiset(Range(0, n)) by {
      forall k | 0 <= k < |cs| ensures multiset(cs[k]) == multiset(Range(0, n)) {
        assert cs[k] == [0] + ps[k];
      }
    }
    assert forall k :: 0 <= k < |cs| ==> |cs[k]| == |multiset(cs[k])|;
    assert forall k :: 0 <= k < |cs| ==> cs[k][0] == 0;
    assert forall k :: 0 <= k < |cs| ==> IsTour(cs[k], n) by {
      forall k, i | 0 <= k < |cs| && 0 <= i < |cs[k]| ensures cs[k][i] < n {
        assert cs[k][i] in multiset(Range(0, n));
      }
    }
    cs
  }

  /** Every tour that starts at 0 is among the candidates. */
  lemma CandidatesComplete(n: nat, t: seq<nat>)
    requires n >= 1 && IsTour(t, n) && |t| > 0 && t[0] == 0
    ensures t in Candidates(n)
  {
    var rest := Range(1, n);
    assert Range(0, n) == [0] + rest;
    assert t == [0] + t[1..];
    assert multiset(t) == multiset{0} + multiset(t[1..]);
    forall x ensures multiset(t[1..])[x] == multiset(rest)[x] {
      assert multiset(t)[x] == multiset(Range(0, n))[x];
    }
    assert multiset(t[1..]) == multiset(rest);
    PermutationsComplete(rest, t[1..]);
    var k :| 0 <= k < |Permutations(rest)| && Permutations(rest)[k] == t[1..];
    assert Candidates(n)[k] == t;
  }

  /** No candidate is priced twice. */
  lemma CandidatesNoRepeats(n: nat)
    requires n >= 1
    ensures NoRepeats(Candidates(n))
  {
    assert Distinct(Range(1, n));
    PermutationsNoRepeats(Range(1, n));
    PrependNoRepeats(0, Permutations(Range(1, n)));
  }

  /** Rotating a tour gives a tour. */
  lemma RotationIsTour(t: seq<nat>, n: nat, k: nat)
    requires IsTour(t, n) && k < |t|
    ensures IsTour(t[k..] + t[..k], n) && |t[k..] + t[..k]| == |t|
  {
    var r := t[k..] + t[..k];
    assert t == t[..k] + t[k..];
    assert multiset(r) == multiset(t);
    forall i | 0 <= i < |r| ensures r[i] < n {
      assert r[i] in multiset(t);
    }
  }

  /** The loop state after pricing cands[..idx]: nothing yet when idx == 0;
      otherwise the tour cands[at] at its cost, strictly cheaper than every
      earlier candidate and no dearer than any priced one. */
  ghost predicate BestSoFar(m: Matrix, cands: seq<seq<nat>>, idx: nat,
                            best: Option<seq<nat>>, bestCost: Bound, at: nat)
    requires IsMatrix(m) && |m| >= 1 && cands == Candidates(|m|) && idx <= |cands|
  {
    && (idx == 0 <==> best.None?)
    && (best.None? <==> bestCost.Infinite?)
    && (best.Some? ==>
          && at < idx && best.value == cands[at]
          && bestCost.value == CycleCost(m, cands[at])
          && (forall j :: 0 <= j < at ==> bestCost.value < CycleCost(m, cands[j]))
          && (forall j :: 0 <= j < idx ==> bestCost.value <= CycleCost(m, cands[j])))
  }

  /** One pass of the loop body: price cands[idx] and keep it only when it
      is strictly cheaper than the best so far. */
  lemma BestStep(m: Matrix, cands: seq<seq<nat>>, idx: nat,
                 best: Option<seq<nat>>, bestCost: Bound, at: nat, cost: int)
    requires IsMatrix(m) && |m| >= 1 && cands == Candidates(|m|) && idx < |cands|
    requires BestSoFar(m, cands, idx, best, bestCost, at)
    requires cost == CycleCost(m, cands[idx])
    ensures Below(cost, bestCost) ==>
      BestSoFar(m, cands, idx + 1, Some(cands[idx]), Finite(cost), idx)
    ensures !Below(cost, bestCost) ==> BestSoFar(m, cands, idx + 1, best, bestCost, at)
  {
  }

  /** The cheapest candidate is no dearer than any tour: rotate the tour to
      start at 0 and it is a candidate of the same cost. */
  lemma CandidateMinIsOptimal(m: Matrix, c: int, t: seq<nat>)
    requires IsMatrix(m) && |m| >= 1
    requires forall j :: 0 <= j < |Candidates(|m|)| ==> c <= CycleCost(m, Candidates(|m|)[j])
    requires IsTour(t, |m|) && |t| == |m|
    ensures c <= CycleCost(m, t)
  {
    var n := |m|;
    assert Range(0, n)[0] == 0;
    assert 0 in multiset(t);
    var k :| 0 <= k < |t| && t[k] == 0;
    RotationIsTour(t, n, k);
    CycleCostRotation(m, t, k);
    CandidatesComplete(n, t[k..] + t[..k]);
    var j :| 0 <= j < |Candidates(n)| && Candidates(n)[j] == t[k..] + t[..k];
  }

  /** tsp_forca_bruta: for n >= 1 the result is a tour that starts at 0,
      is reported at its own cost, costs no more than any tour, and is the
      first candidate of that cost in the enumeration. An empty matrix
      makes the source price the route [0] of a matrix without rows,
      hence |m| >= 1. */
  method ExactTour(m: Matrix) returns (best: Option<seq<nat>>, bestCost: Bound)
    requires IsMatrix(m) && |m| >= 1
    ensures best.Some? && bestCost.Finite?
    ensures |best.value| == |m| && best.value[0] == 0 && IsTour(best.value, |m|)
    ensures IsRoute(m, best.value) && bestCost.value == CycleCost(m, best.value)
    ensures forall t :: IsTour(t, |m|) && |t| == |m| ==> bestCost.value <= CycleCost(m, t)
    ensures exists at ::
      (&& 0 <= at < |Candidates(|m|)| && best.value == Candidates(|m|)[at]
       && forall j :: 0 <= j < at ==> bestCost.value < CycleCost(m, Candidates(|m|)[j]))
    ensures |m| == 1 ==> best.value == [0] && bestCost.value == m[0][0]
  {
    var n := |m|;
    var perms := Permutations(Range(1, n));
    ghost var cands := Candidates(n);
    ghost var at: nat := 0;
    best := None;
    bestCost := Infinite;
    for idx := 0 to |perms|
      invariant BestSoFar(m, cands, idx, best, bestCost, at)
    {
      var route := [0] + perms[idx];
      assert route == cands[idx];
      var cost := TourCost(m, route);
      BestStep(m, cands, idx, best, bestCost, at, cost);
      if Below(cost, bestCost) {
        bestCost := Finite(cost);
        best := Some(route);
        at := idx;
      }
    }
    forall t | IsTour(t, n) && |t| == n ensures bestCost.value <= CycleCost(m, t) {
      CandidateMinIsOptimal(m, bestCost.value, t);
    }
  }
}
