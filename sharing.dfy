/**
 * The explicit fitness-sharing function of NEAT, independent of how genomes
 * are represented: a step function on compatibility distances and the number
 * of species-mates a genome shares its fitness with.
 *
 * The compatibility distance is a parameter `dist`; nothing is assumed about
 * it (not symmetry, not `dist(g, g) == 0`) unless a lemma says so in its
 * `requires`.
 */
module Sharing {

  /** The step function `sh`: 0 when `d` is beyond the threshold, 1 otherwise. */
  function Sh(d: real, dt: real): (r: real)
    ensures r == 1.0 <==> d <= dt
    ensures r == 0.0 <==> d > dt
  {
    if d > dt then 0.0 else 1.0
  }

  /**
   * The number of positions `i` of `gs` whose member is within distance `dt`
   * of `g0`, duplicates counted; counted from the front, as the inner loop
   * of the sharing pass accumulates it.
   */
  function Count<G>(dist: (G, G) -> real, dt: real, g0: G, gs: seq<G>): (c: nat)
    ensures c <= |gs|
    decreases |gs|
  {
    if gs == [] then 0
    else Count(dist, dt, g0, gs[..|gs| - 1]) + (if dist(g0, gs[|gs| - 1]) <= dt then 1 else 0)
  }

  /** Reference definition: the set of positions within the threshold. */
  ghost function Within<G>(dist: (G, G) -> real, dt: real, g0: G, gs: seq<G>): (w: set<nat>)
  {
    set i: nat | i < |gs| && dist(g0, gs[i]) <= dt
  }

  /** The count is exactly the number of positions within the threshold. */
  lemma {:induction false} CountIsCardinality<G>(dist: (G, G) -> real, dt: real, g0: G, gs: seq<G>)
    ensures Count(dist, dt, g0, gs) == |Within(dist, dt, g0, gs)|
    decreases |gs|
  {
    if gs != [] {
      var n := |gs| - 1;
      var front := gs[..n];
      CountIsCardinality(dist, dt, g0, front);
      var w := Within(dist, dt, g0, front);
      assert n !in w;
      if dist(g0, gs[n]) <= dt {
        assert Within(dist, dt, g0, gs) == w + {n};
      } else {
        assert Within(dist, dt, g0, gs) == w;
      }
    }
  }

  /** Counting a concatenation adds the counts of its parts. */
  lemma {:induction false} CountAppend<G>(dist: (G, G) -> real, dt: real, g0: G, a: seq<G>, b: seq<G>)
    ensures Count(dist, dt, g0, a + b) == Count(dist, dt, g0, a) + Count(dist, dt, g0, b)
    decreases |b|
  {
    if b == [] {
      assert a + b == a;
    } else {
      var n := |b| - 1;
      CountAppend(dist, dt, g0, a, b[..n]);
      assert (a + b)[..|a + b| - 1] == a + b[..n];
      assert (a + b)[|a + b| - 1] == b[n];
    }
  }

  /** The count is positive exactly when some member is within the threshold. */
  lemma {:induction false} CountPositive<G>(dist: (G, G) -> real, dt: real, g0: G, gs: seq<G>)
    ensures Count(dist, dt, g0, gs) > 0 <==> exists i :: 0 <= i < |gs| && dist(g0, gs[i]) <= dt
  {
    CountIsCardinality(dist, dt, g0, gs);
    var w := Within(dist, dt, g0, gs);
    if w != {} {
      var i :| i in w;
      assert 0 <= i < |gs| && dist(g0, gs[i]) <= dt;
    } else {
      forall i | 0 <= i < |gs| ensures dist(g0, gs[i]) > dt {
        assert i !in w;
      }
    }
  }

  /** The count reaches the size of the species exactly when every member is within the threshold. */
  lemma {:induction false} CountFull<G>(dist: (G, G) -> real, dt: real, g0: G, gs: seq<G>)
    ensures Count(dist, dt, g0, gs) == |gs| <==> forall i :: 0 <= i < |gs| ==> dist(g0, gs[i]) <= dt
    decreases |gs|
  {
    if gs != [] {
      var n := |gs| - 1;
      CountFull(dist, dt, g0, gs[..n]);
      assert forall i :: 0 <= i < n ==> gs[..n][i] == gs[i];
    }
  }

  /** A member that is within the threshold of itself counts itself. */
  lemma SelfCounts<G>(dist: (G, G) -> real, dt: real, gs: seq<G>, i: nat)
    requires i < |gs|
    requires dist(gs[i], gs[i]) <= dt
    ensures 1 <= Count(dist, dt, gs[i], gs) <= |gs|
  {
    CountPositive(dist, dt, gs[i], gs);
  }

  /**
   * A member within the threshold of itself and beyond it from every other
   * position counts exactly one.
   */
  lemma Isolated<G>(dist: (G, G) -> real, dt: real, gs: seq<G>, i: nat)
    requires i < |gs|
    requires dist(gs[i], gs[i]) <= dt
    requires forall j :: 0 <= j < |gs| && j != i ==> dist(gs[i], gs[j]) > dt
    ensures Count(dist, dt, gs[i], gs) == 1
  {
    CountIsCardinality(dist, dt, gs[i], gs);
    assert Within(dist, dt, gs[i], gs) == {i};
  }

  /** The count depends only on the multiset of members, not on their order. */
  lemma {:induction false} CountPermutation<G>(dist: (G, G) -> real, dt: real, g0: G, s: seq<G>, t: seq<G>)
    requires multiset(s) == multiset(t)
    ensures Count(dist, dt, g0, s) == Count(dist, dt, g0, t)
    decreases |s|
  {
    if s == [] {
      assert |t| == |multiset(t)| == 0;
    } else {
      var n := |s| - 1;
      var x := s[n];
      assert s == s[..n] + [x];
      assert x in multiset(t);
      var k :| 0 <= k < |t| && t[k] == x;
      assert t == t[..k] + [x] + t[k + 1..];
      var rest := t[..k] + t[k + 1..];
      assert multiset(t) == multiset(rest) + multiset{x} by {
        assert multiset(t) == multiset(t[..k]) + multiset([x]) + multiset(t[k + 1..]);
      }
      assert multiset(s) == multiset(s[..n]) + multiset{x} by {
        assert multiset(s) == multiset(s[..n]) + multiset([x]);
      }
      assert multiset(s[..n]) == multiset(s) - multiset{x};
      assert multiset(rest) == multiset(t) - multiset{x};
      CountPermutation(dist, dt, g0, s[..n], rest);
      CountAppend(dist, dt, g0, s[..n], [x]);
      CountAppend(dist, dt, g0, t[..k] + [x], t[k + 1..]);
      CountAppend(dist, dt, g0, t[..k], [x]);
      CountAppend(dist, dt, g0, t[..k], t[k + 1..]);
    }
  }
}
