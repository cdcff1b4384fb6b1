/** The enumeration itertools.permutations(s) that tsp_forca_bruta of
    bruteforce.py loops over: for each position i in turn, s[i] followed
    by every permutation of the remaining elements. */
module Perms {
  import opened Tours

  /** s with position i removed. */
  function Without(s: seq<nat>, i: nat): (r: seq<nat>)
    requires i < |s|
    ensures |r| == |s| - 1
    ensures multiset(r) + multiset{s[i]} == multiset(s)
  {
    assert s == s[..i] + [s[i]] + s[i + 1..];
    s[..i] + s[i + 1..]
  }

  /** x put in front of each sequence of ps. */
  function Prepend(x: nat, ps: seq<seq<nat>>): (r: seq<seq<nat>>)
    ensures |r| == |ps|
    ensures forall k :: 0 <= k < |r| ==> r[k] == [x] + ps[k]
  {
    seq(|ps|, k requires 0 <= k < |ps| => [x] + ps[k])
  }

  /** Every rearrangement of s (the empty sequence has one: itself). */
  function Permutations(s: seq<nat>): (ps: seq<seq<nat>>)
    ensures |ps| > 0
    ensures forall k :: 0 <= k < |ps| ==> multiset(ps[k]) == multiset(s)
    decreases |s|, 1
  {
    if s == [] then [[]] else PermsFrom(s, 0)
  }

  /** The permutations of s that begin with s[i], s[i + 1], ..., in turn. */
  function PermsFrom(s: seq<nat>, i: nat): (ps: seq<seq<nat>>)
    requires i <= |s|
    ensures i < |s| ==> |ps| > 0
    ensures forall k :: 0 <= k < |ps| ==>
      multiset(ps[k]) == multiset(s) && |ps[k]| > 0 && ps[k][0] in s[i..]
    decreases |s|, 0, |s| - i
  {
    if i == |s| then []
    else
      var first := Prepend(s[i], Permutations(Without(s, i)));
      var rest := PermsFrom(s, i + 1);
      assert forall k :: 0 <= k < |first| ==> first[k][0] == s[i];
      assert forall k :: 0 <= k < |rest| ==> rest[k][0] in s[i..] by {
        forall k | 0 <= k < |rest| ensures rest[k][0] in s[i..] {
          assert s[i + 1..] == s[i..][1..];
        }
      }
      first + rest
  }

  /** Each block of first elements is part of the enumeration from any
      earlier position. */
  lemma {:induction false} PermsFromContains(s: seq<nat>, j: nat, i: nat, q: seq<nat>)
    requires j <= i < |s|
    requires q in Prepend(s[i], Permutations(Without(s, i)))
    ensures q in PermsFrom(s, j)
    decreases i - j
  {
    if j < i {
      PermsFromContains(s, j + 1, i, q);
    }
  }

  /** Every rearrangement of s is enumerated. */
  lemma {:induction false} PermutationsComplete(s: seq<nat>, p: seq<nat>)
    requires multiset(p) == multiset(s)
    ensures p in Permutations(s)
    decreases |s|
  {
    assert |p| == |multiset(p)| == |multiset(s)| == |s|;
    if s != [] {
      assert p == [p[0]] + p[1..];
      assert p[0] in multiset(s);
      var i :| 0 <= i < |s| && s[i] == p[0];
      var rest := Without(s, i);
      assert multiset(p) == multiset{p[0]} + multiset(p[1..]);
      forall x ensures multiset(p[1..])[x] == multiset(rest)[x] {
        assert multiset(p)[x] == multiset(s)[x];
      }
      assert multiset(p[1..]) == multiset(rest);
      PermutationsComplete(rest, p[1..]);
      var k :| 0 <= k < |Permutations(rest)| && Permutations(rest)[k] == p[1..];
      assert Prepend(s[i], Permutations(rest))[k] == p;
      PermsFromContains(s, 0, i, p);
    }
  }

  /** No sequence occurs twice. */
  predicate NoRepeats(ps: seq<seq<nat>>)
  {
    forall a, b :: 0 <= a < b < |ps| ==> ps[a] != ps[b]
  }

  lemma WithoutDistinct(s: seq<nat>, i: nat)
    requires Distinct(s) && i < |s|
    ensures Distinct(Without(s, i))
  {
    var r := Without(s, i);
    forall a, b | 0 <= a < b < |r| ensures r[a] != r[b] {
      var a' := if a < i then a else a + 1;
      var b' := if b < i then b else b + 1;
      assert r[a] == s[a'] && r[b] == s[b'];
    }
  }

  /** Putting the same element in front keeps sequences apart. */
  lemma PrependNoRepeats(x: nat, ps: seq<seq<nat>>)
    requires NoRepeats(ps)
    ensures NoRepeats(Prepend(x, ps))
  {
    var r := Prepend(x, ps);
    forall a, b | 0 <= a < b < |r| ensures r[a] != r[b] {
      assert r[a][1..] == ps[a] && r[b][1..] == ps[b];
    }
  }

  /** With distinct elements, no permutation is enumerated twice:
      tsp_forca_bruta prices each tour through 0 once. */
  lemma {:induction false} PermutationsNoRepeats(s: seq<nat>)
    requires Distinct(s)
    ensures NoRepeats(Permutations(s))
    decreases |s|, 1
  {
    if s != [] {
      PermsFromNoRepeats(s, 0);
    }
  }

  lemma {:induction false} PermsFromNoRepeats(s: seq<nat>, i: nat)
    requires Distinct(s) && i <= |s|
    ensures NoRepeats(PermsFrom(s, i))
    decreases |s|, 0, |s| - i
  {
    if i < |s| {
      WithoutDistinct(s, i);
      PermutationsNoRepeats(Without(s, i));
      PrependNoRepeats(s[i], Permutations(Without(s, i)));
      PermsFromNoRepeats(s, i + 1);
      BlocksApart(s, i);
      NoRepeatsConcat(Prepend(s[i], Permutations(Without(s, i))), PermsFrom(s, i + 1));
    }
  }

  /** The block that begins with s[i] shares nothing with the blocks after
      it, whose first elements come later in s. */
  lemma BlocksApart(s: seq<nat>, i: nat)
    requires Distinct(s) && i < |s|
    ensures Apart(Prepend(s[i], Permutations(Without(s, i))), PermsFrom(s, i + 1))
  {
    var first := Prepend(s[i], Permutations(Without(s, i)));
    var rest := PermsFrom(s, i + 1);
    forall a, b | 0 <= a < |first| && 0 <= b < |rest| ensures first[a] != rest[b] {
      assert first[a][0] == s[i];
      var c :| i + 1 <= c < |s| && s[c] == rest[b][0];
    }
  }

  /** No sequence of xs occurs in ys. */
  predicate Apart(xs: seq<seq<nat>>, ys: seq<seq<nat>>)
  {
    forall a, b :: 0 <= a < |xs| && 0 <= b < |ys| ==> xs[a] != ys[b]
  }

  /** Two enumerations without repeats and without common sequences
      concatenate to one without repeats. */
  lemma NoRepeatsConcat(xs: seq<seq<nat>>, ys: seq<seq<nat>>)
    requires NoRepeats(xs) && NoRepeats(ys)
    requires Apart(xs, ys)
    ensures NoRepeats(xs + ys)
  {
    var all := xs + ys;
    forall a, b | 0 <= a < b < |all| ensures all[a] != all[b] {
      if a < |xs| && b >= |xs| {
        assert all[a] == xs[a] && all[b] == ys[b - |xs|];
      } else if a >= |xs| {
        assert all[a] == ys[a - |xs|] && all[b] == ys[b - |xs|];
      } else {
        assert all[a] == xs[a] && all[b] == xs[b];
      }
    }
  }
}
