/**
 * The species of NEAT: a cluster of genome references with an id and an age,
 * and the explicit fitness-sharing pass that rewrites each member's fitness
 * as its raw fitness divided by the number of species-mates it shares with.
 */
module Neat {
  import opened Sharing

  /**
   * The part of a genome the species uses: its id and its mutable fitness.
   * The genome's genes are not modelled; its compatibility distance is
   * passed to the sharing pass as a function of the two genomes.
   */
  class Genome {
    var gid: int
    var fitness: real

    constructor (gid: int, fitness: real)
      ensures this.gid == gid && this.fitness == fitness
    {
      this.gid := gid;
      this.fitness := fitness;
    }
  }

  /** The ids of the genomes, position by position. */
  function Ids(gs: seq<Genome>): (ids: seq<int>)
    reads gs
    ensures |ids| == |gs|
    ensures forall i :: 0 <= i < |gs| ==> ids[i] == gs[i].gid
  {
    seq(|gs|, i reads gs requires 0 <= i < |gs| => gs[i].gid)
  }

  /** No two positions hold genomes with the same id. */
  ghost predicate DistinctIds(gs: seq<Genome>)
    reads gs
  {
    forall i, j :: 0 <= i < |gs| && 0 <= j < |gs| && i != j ==> gs[i].gid != gs[j].gid
  }

  /** A Go map read: a missing key yields the zero value 0.0. */
  function Get(m: map<int, real>, id: int): (r: real)
    ensures id in m ==> r == m[id]
    ensures id !in m ==> r == 0.0
  {
    if id in m then m[id] else 0.0
  }

  /**
   * The table the read pass builds from the members `ps` (visited in order)
   * of the species `all`: each member whose count is nonzero writes
   * fitness / count under its id, a later write to the same id replacing an
   * earlier one; a member whose count is zero writes nothing.
   */
  ghost function Table(dist: (Genome, Genome) -> real, dt: real, all: seq<Genome>, ps: seq<Genome>): (m: map<int, real>)
    reads ps
    ensures |m| <= |ps|
    decreases |ps|
  {
    if ps == [] then map[]
    else
      var n := |ps| - 1;
      var m := Table(dist, dt, all, ps[..n]);
      var g := ps[n];
      var c := Count(dist, dt, g, all);
      if c != 0 then m[g.gid := g.fitness / c as real] else m
  }

  /** The table has an entry for an id exactly when some member with that id has a nonzero count. */
  lemma {:induction false} TableDomain(dist: (Genome, Genome) -> real, dt: real, all: seq<Genome>, ps: seq<Genome>, id: int)
    ensures id in Table(dist, dt, all, ps) <==>
      exists k :: 0 <= k < |ps| && ps[k].gid == id && Count(dist, dt, ps[k], all) != 0
    decreases |ps|
  {
    if ps != [] {
      var n := |ps| - 1;
      TableDomain(dist, dt, all, ps[..n], id);
      assert forall k :: 0 <= k < n ==> ps[..n][k] == ps[k];
    }
  }

  /**
   * The fitness the sharing pass gives a genome of the species `all`: a
   * nonzero value is always written by some member carrying the genome's id
   * whose count is nonzero.
   */
  ghost function Shared(dist: (Genome, Genome) -> real, dt: real, all: seq<Genome>, g: Genome): (r: real)
    reads g, all
    ensures r != 0.0 ==>
      exists k :: 0 <= k < |all| && all[k].gid == g.gid && Count(dist, dt, all[k], all) != 0
  {
    TableDomain(dist, dt, all, all, g.gid);
    Get(Table(dist, dt, all, all), g.gid)
  }

  /**
   * The entry for the id of position `k` is written by `k` when no later
   * position with the same id writes one: the last writer wins.
   */
  lemma {:induction false} TableLastWins(dist: (Genome, Genome) -> real, dt: real, all: seq<Genome>, ps: seq<Genome>, k: nat)
    requires k < |ps|
    requires Count(dist, dt, ps[k], all) != 0
    requires forall j :: k < j < |ps| && ps[j].gid == ps[k].gid ==> Count(dist, dt, ps[j], all) == 0
    ensures ps[k].gid in Table(dist, dt, all, ps)
    ensures Table(dist, dt, all, ps)[ps[k].gid] == ps[k].fitness / Count(dist, dt, ps[k], all) as real
    decreases |ps|
  {
    var n := |ps| - 1;
    if k < n {
      TableLastWins(dist, dt, all, ps[..n], k);
    }
  }

  /**
   * With distinct ids, a member's shared fitness is its fitness divided by
   * its count, or 0.0 when its count is zero.
   */
  lemma SharedDistinct(dist: (Genome, Genome) -> real, dt: real, all: seq<Genome>, i: nat)
    requires i < |all|
    requires DistinctIds(all)
    ensures var c := Count(dist, dt, all[i], all);
      Shared(dist, dt, all, all[i]) == if c == 0 then 0.0 else all[i].fitness / c as real
  {
    if Count(dist, dt, all[i], all) != 0 {
      TableLastWins(dist, dt, all, all, i);
    } else {
      TableDomain(dist, dt, all, all, all[i].gid);
    }
  }

  /**
   * A member whose id no member with a nonzero count carries gets fitness
   * 0.0, whatever the ids of the others: in particular a member beyond the
   * threshold of every member, itself included, when its id is unique.
   */
  lemma ZeroCountResets(dist: (Genome, Genome) -> real, dt: real, all: seq<Genome>, i: nat)
    requires i < |all|
    requires forall k, j :: 0 <= k < |all| && 0 <= j < |all| && all[k].gid == all[i].gid ==> dist(all[k], all[j]) > dt
    ensures all[i].gid !in Table(dist, dt, all, all)
    ensures Shared(dist, dt, all, all[i]) == 0.0
  {
    forall k | 0 <= k < |all| && all[k].gid == all[i].gid
      ensures Count(dist, dt, all[k], all) == 0
    {
      CountPositive(dist, dt, all[k], all);
    }
    TableDomain(dist, dt, all, all, all[i].gid);
  }

  /** With distinct ids, members within the threshold of every member get raw / n. */
  lemma AllCompatible(dist: (Genome, Genome) -> real, dt: real, all: seq<Genome>, i: nat)
    requires i < |all|
    requires DistinctIds(all)
    requires forall j :: 0 <= j < |all| ==> dist(all[i], all[j]) <= dt
    ensures Shared(dist, dt, all, all[i]) == all[i].fitness / |all| as real
  {
    CountFull(dist, dt, all[i], all);
    SharedDistinct(dist, dt, all, i);
  }

  /** With distinct ids, a member sharing with nobody but itself keeps its fitness. */
  lemma IsolatedKeeps(dist: (Genome, Genome) -> real, dt: real, all: seq<Genome>, i: nat)
    requires i < |all|
    requires DistinctIds(all)
    requires dist(all[i], all[i]) <= dt
    requires forall j :: 0 <= j < |all| && j != i ==> dist(all[i], all[j]) > dt
    ensures Shared(dist, dt, all, all[i]) == all[i].fitness
  {
    Isolated(dist, dt, all, i);
    SharedDistinct(dist, dt, all, i);
  }

  /**
   * With distinct ids, every member is within the threshold of itself: each
   * count lies between 1 and the size of the species, and no fitness is reset.
   */
  lemma SelfCompatibleShares(dist: (Genome, Genome) -> real, dt: real, all: seq<Genome>, i: nat)
    requires i < |all|
    requires DistinctIds(all)
    requires forall j :: 0 <= j < |all| ==> dist(all[j], all[j]) <= dt
    ensures var c := Count(dist, dt, all[i], all);
      1 <= c <= |all| && Shared(dist, dt, all, all[i]) == all[i].fitness / c as real
  {
    SelfCounts(dist, dt, all, i);
    SharedDistinct(dist, dt, all, i);
  }

  /** Distinct ids rule out the same genome at two positions: every multiplicity is at most one. */
  lemma {:induction false} DistinctIdsSingle(gs: seq<Genome>, x: Genome)
    requires DistinctIds(gs)
    ensures multiset(gs)[x] <= 1
    decreases |gs|
  {
    if gs != [] {
      var n := |gs| - 1;
      assert gs == gs[..n] + [gs[n]];
      assert forall a, b :: 0 <= a < n && 0 <= b < n ==> gs[..n][a] == gs[a] && gs[..n][b] == gs[b];
      DistinctIdsSingle(gs[..n], x);
      if gs[n] == x {
        forall a | 0 <= a < n ensures gs[..n][a] != x {
          assert gs[a].gid != gs[n].gid;
        }
        assert x !in gs[..n];
      }
    }
  }

  /** A genome held at two positions has multiplicity at least two. */
  lemma TwiceHeld(gs: seq<Genome>, a: nat, b: nat)
    requires a < b < |gs|
    ensures gs[a] == gs[b] ==> multiset(gs)[gs[a]] >= 2
  {
    if gs[a] == gs[b] {
      var x := gs[a];
      assert gs == gs[..a] + [x] + gs[a + 1..b] + [x] + gs[b + 1..];
      assert multiset(gs) == multiset(gs[..a]) + multiset{x} + multiset(gs[a + 1..b]) + multiset{x} + multiset(gs[b + 1..]);
    }
  }

  /** Distinct ids survive a reordering of the members. */
  lemma PermutationKeepsDistinctIds(s: seq<Genome>, t: seq<Genome>)
    requires multiset(s) == multiset(t)
    requires DistinctIds(s)
    ensures DistinctIds(t)
  {
    forall a, b | 0 <= a < |t| && 0 <= b < |t| && a != b
      ensures t[a].gid != t[b].gid
    {
      if a < b { TwiceHeld(t, a, b); } else { TwiceHeld(t, b, a); }
      DistinctIdsSingle(s, t[a]);
      assert t[a] != t[b];
      assert t[a] in multiset(s) && t[b] in multiset(s);
      var p :| 0 <= p < |s| && s[p] == t[a];
      var q :| 0 <= q < |s| && s[q] == t[b];
      assert p != q;
    }
  }

  /**
   * With distinct ids, reordering the members does not change the fitness
   * the sharing pass gives any of them.
   */
  lemma OrderIndependent(dist: (Genome, Genome) -> real, dt: real, s: seq<Genome>, t: seq<Genome>, i: nat, j: nat)
    requires multiset(s) == multiset(t)
    requires DistinctIds(s)
    requires i < |s| && j < |t| && s[i] == t[j]
    ensures Shared(dist, dt, s, s[i]) == Shared(dist, dt, t, t[j])
  {
    PermutationKeepsDistinctIds(s, t);
    CountPermutation(dist, dt, s[i], s, t);
    SharedDistinct(dist, dt, s, i);
    SharedDistinct(dist, dt, t, j);
  }

  /**
   * The worked example: A (10), B (20) and C (30), A and B at distance 0.5,
   * both at distance 5.0 from C, threshold 1.0: A and B share, C is alone.
   */
  lemma Scenario(dist: (Genome, Genome) -> real, a: Genome, b: Genome, c: Genome)
    requires a.gid == 1 && b.gid == 2 && c.gid == 3
    requires a.fitness == 10.0 && b.fitness == 20.0 && c.fitness == 30.0
    requires dist(a, a) == 0.0 && dist(b, b) == 0.0 && dist(c, c) == 0.0
    requires dist(a, b) == 0.5 && dist(b, a) == 0.5
    requires dist(a, c) == 5.0 && dist(c, a) == 5.0 && dist(b, c) == 5.0 && dist(c, b) == 5.0
    ensures Shared(dist, 1.0, [a, b, c], a) == 5.0
    ensures Shared(dist, 1.0, [a, b, c], b) == 10.0
    ensures Shared(dist, 1.0, [a, b, c], c) == 30.0
  {
    var all := [a, b, c];
    assert all[..2] == [a, b] && [a, b][..1] == [a] && [a][..0] == [];
    forall g | g in all ensures Count(dist, 1.0, g, all) == Count(dist, 1.0, g, [a, b]) + Count(dist, 1.0, g, [c]) {
      CountAppend(dist, 1.0, g, [a, b], [c]);
    }
    assert Count(dist, 1.0, a, [a, b]) == 2;
    assert Count(dist, 1.0, b, [a, b]) == 2;
    assert Count(dist, 1.0, c, [a, b]) == 0;
    SharedDistinct(dist, 1.0, all, 0);
    SharedDistinct(dist, 1.0, all, 1);
    SharedDistinct(dist, 1.0, all, 2);
  }

  /** A species: an id, an age and its member genomes in the order they joined. */
  class Species {
    var sid: int
    var age: int
    var genomes: seq<Genome>

    /**
     * A species is never empty: the constructor founds it with one genome,
     * `AddGenome` only grows it and `FitnessShare` leaves it unchanged. The
     * predicate records that invariant; the sharing pass does not need it,
     * since it handles an empty member list as well.
     */
    ghost predicate Valid()
      reads this
    {
      |genomes| >= 1
    }

    /** A new species founded by `g`, with age 0. */
    constructor (sid: int, g: Genome)
      ensures Valid()
      ensures this.sid == sid && age == 0 && genomes == [g]
    {
      this.sid := sid;
      age := 0;
      genomes := [g];
    }

    method SID() returns (r: int)
      ensures r == sid
    {
      r := sid;
    }

    method Age() returns (r: int)
      ensures r == age
    {
      r := age;
    }

    method Genomes() returns (r: seq<Genome>)
      ensures r == genomes
    {
      r := genomes;
    }

    /** Appends `g` to the members; the id and the age stay as they were. */
    method AddGenome(g: Genome)
      modifies this
      ensures Valid()
      ensures genomes == old(genomes) + [g]
      ensures sid == old(sid) && age == old(age)
    {
      genomes := genomes + [g];
    }

    /** The inner loop of the read pass: the sum of `sh` over the members is `g0`'s count. */
    method Adjustment(dist: (Genome, Genome) -> real, dt: real, g0: Genome) returns (adjustment: real)
      ensures adjustment == Count(dist, dt, g0, genomes) as real
    {
      adjustment := 0.0;
      for k := 0 to |genomes|
        invariant adjustment == Count(dist, dt, g0, genomes[..k]) as real
      {
        assert genomes[..k + 1][..k] == genomes[..k];
        adjustment := adjustment + Sh(dist(g0, genomes[k]), dt);
      }
      assert genomes[..|genomes|] == genomes;
    }

    /** The read pass: the id-to-shared-fitness table, built before anything is written. */
    method ReadPass(dist: (Genome, Genome) -> real, dt: real) returns (adjusted: map<int, real>)
      ensures adjusted == Table(dist, dt, genomes, genomes)
    {
      adjusted := map[];
      for k := 0 to |genomes|
        invariant adjusted == Table(dist, dt, genomes, genomes[..k])
      {
        var g0 := genomes[k];
        var adjustment := Adjustment(dist, dt, g0);
        assert genomes[..k + 1][..k] == genomes[..k];
        if adjustment != 0.0 {
          adjusted := adjusted[g0.gid := g0.fitness / adjustment];
        }
      }
      assert genomes[..|genomes|] == genomes;
    }

    /**
     * Explicit fitness sharing: every member's fitness becomes the table
     * entry for its id, computed from the fitness values before the call,
     * or 0.0 when the table has no entry. Only the members' fitness fields
     * change.
     */
    method FitnessShare(dist: (Genome, Genome) -> real, dt: real)
      modifies genomes
      ensures unchanged(this)
      ensures forall i :: 0 <= i < |genomes| ==>
        genomes[i].gid == old(genomes[i].gid) &&
        genomes[i].fitness == old(Shared(dist, dt, genomes, genomes[i]))
    {
      var adjusted := ReadPass(dist, dt);
      ghost var ids := Ids(genomes);
      assert forall i :: 0 <= i < |genomes| ==> Shared(dist, dt, genomes, genomes[i]) == Get(adjusted, ids[i]);
      for i := 0 to |genomes|
        invariant forall j :: 0 <= j < |genomes| ==> genomes[j].gid == ids[j]
        invariant forall j :: 0 <= j < i ==> genomes[j].fitness == Get(adjusted, ids[j])
      {
        genomes[i].fitness := Get(adjusted, genomes[i].gid);
      }
    }
  }
}
