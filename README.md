# Species and explicit fitness sharing (NEAT)

This project models the species of a NEAT (NeuroEvolution of Augmenting
Topologies) implementation written in Go. A species is a cluster of genome
references with a species id and an age. It is founded with one genome and
only grows by appending. Its one algorithm is explicit fitness sharing:
every member's fitness becomes its raw fitness divided by the number of
members whose compatibility distance from it is within a threshold.

Layout:

- `sharing.dfy`, module `Sharing`: the pure part. It holds the step
  function `sh` (`Sh`) and the number of species-mates a genome shares with
  (`Count`). `Count` is generic in the genome type. It is proved equal to a
  set-cardinality definition, it adds up over concatenation, and it does not
  depend on member order.
- `neat.dfy`, module `Neat`: the heap part. `Genome` has only the two fields
  the species uses: `gid` and a mutable `fitness`. `Species` is a class with
  fields `sid`, `age` and `genomes: seq<Genome>`. `FitnessShare` is an
  imperative method in two passes:
  - `ReadPass` fills the `adjusted` map; its inner loop is `Adjustment`.
  - A write loop then overwrites each member's `fitness` in place.

  Each pass is proved against the ghost reference function `Table`. `Table`
  folds over the members in order: a member with a nonzero count writes
  `fitness / count` under its id, and a later write to the same id replaces
  an earlier one. `Shared` reads a genome's entry the way Go reads a map, so
  a missing key gives `0.0`.

The compatibility distance (`Genome.Compatibility` in the source) is a
parameter `dist: (Genome, Genome) -> real`. Nothing is assumed about it. The
lemmas that need symmetry-like facts, or a genome being within the threshold
of itself, ask for them in their `requires`.

A zero adjustment does not leave the fitness unchanged. No map entry is
written for that genome (species.go:96-98), and the write pass reads Go's
zero value for the missing key (species.go:101), so its fitness is reset to
`0.0`: see `ZeroCountResets` and `SharedDistinct`. The code relies neither
on the distance being symmetric nor on `Compatibility(g, g) == 0`, so the
model assumes neither.

## Model

| member | source | states |
|---|---|---|
| Sharing.Sh | species.go:77-85 | `sh(d, dt)` is 1.0 exactly when `d <= dt` and 0.0 exactly when `d > dt`, so the boundary `d == dt` shares |
| Sharing.Count | species.go:91-95 | the number of members within the threshold of `g0`, duplicates counted, is at most the number of members |
| Sharing.CountIsCardinality | species.go:91-95 | the count equals the size of the set of positions `i` with `dist(g0, genomes[i]) <= dt`, an independent definition |
| Sharing.CountAppend | species.go:93-95 | counting over a concatenation adds the counts of the two parts |
| Sharing.CountPositive | species.go:92-96 | the adjustment is nonzero exactly when some member is within the threshold of `g0` |
| Sharing.CountFull | species.go:92-95 | the adjustment equals the species size exactly when every member is within the threshold of `g0` |
| Sharing.SelfCounts | species.go:92-95 | a member within the threshold of itself has an adjustment between 1 and the species size |
| Sharing.Isolated | species.go:92-95 | a member within the threshold of itself and beyond it from every other position has adjustment exactly 1 |
| Sharing.CountPermutation | species.go:93-95 | the adjustment depends only on the multiset of members, not on their order |
| Neat.Get | species.go:101 | reading the map gives the stored value for a present id and Go's zero value 0.0 for a missing one |
| Neat.Table | species.go:90-99 | the read pass writes at most one entry per member, so the map has no more entries than the species has members (its exact key set is `TableDomain`) |
| Neat.Shared | species.go:100-102 | the value the write pass gives a genome is nonzero only when some member carrying its id has a nonzero adjustment |
| Neat.TableDomain | species.go:90-99 | after the read pass the map has an entry for an id exactly when some member with that id has a nonzero adjustment |
| Neat.TableLastWins | species.go:96-98 | the entry for an id is `fitness / adjustment` of the last member with that id whose adjustment is nonzero |
| Neat.SharedDistinct | species.go:90-102 | with distinct ids, a member's new fitness is its fitness before the call over its adjustment, or 0.0 when its adjustment is zero |
| Neat.ZeroCountResets | species.go:96-101 | when every member carrying a genome's id is beyond the threshold of every member, the table has no entry for its id and the genome's fitness is reset to 0.0, whatever the other ids are |
| Neat.AllCompatible | species.go:89-103 | with distinct ids, a member within the threshold of every member gets `raw / n`, where `n` is the species size |
| Neat.IsolatedKeeps | species.go:89-103 | with distinct ids, a member that shares only with itself keeps its fitness |
| Neat.SelfCompatibleShares | species.go:89-103 | with distinct ids, when every member is within the threshold of itself, every adjustment lies in `1..n` and every new fitness is `raw / adjustment`, never reset |
| Neat.PermutationKeepsDistinctIds | species.go:89-103 | reordering the members keeps their ids distinct |
| Neat.OrderIndependent | species.go:89-103 | with distinct ids, reordering the members does not change the fitness any genome is given |
| Neat.Scenario | species.go:89-103 | the worked example: A(10) and B(20) at distance 0.5, both 5.0 from C(30), threshold 1.0, gives A 5.0, B 10.0 and C 30.0 |
| Neat.Species.constructor | species.go:47-55 | a new species has the given id, age 0 and the members exactly `[g]`, and so is non-empty |
| Neat.Species.SID | species.go:57-60 | returns the species id and changes nothing |
| Neat.Species.Age | species.go:62-65 | returns the age and changes nothing |
| Neat.Species.Genomes | species.go:67-70 | returns the member sequence and changes nothing |
| Neat.Species.AddGenome | species.go:72-75 | the members become the old members followed by `g`; the id and the age are unchanged; the species stays non-empty |
| Neat.Species.Adjustment | species.go:92-95 | the inner loop's sum of `sh` over all members is the count of `g0`, as a whole number |
| Neat.Species.ReadPass | species.go:90-99 | the read pass builds exactly the reference table, and writes no fitness |
| Neat.Species.FitnessShare | species.go:87-103 | each member's new fitness is the reference table's entry for its id, built from the fitness values before the call, or 0.0 when there is no entry; ids are unchanged; the species object (id, age, members) is unchanged; only member genomes are modified |

## Left out

- `Genome` and `Genome.Compatibility` are not part of this model. A genome is reduced to its id and fitness. The distance is a heap-independent function parameter, so it cannot depend on the fitness that the write pass changes.
- Floating point: `float64` is modelled as `real`. The sum of `sh` values is a whole number below 2^53, where adding 1.0 in `float64` is exact. The model still loses three things:
  - the rounding of the one division `fitness / adjustment`;
  - NaN: `sh` tests `d > dt` (species.go:81), so a NaN distance gives 1.0 and counts as sharing, and a NaN threshold makes every pair share. For those inputs, `Sh`'s `r == 1.0 <==> d <= dt` and the `<=` test of `Count` do not describe `float64`;
  - positive and negative infinity, in distances, thresholds and fitness values (for example `+Inf / n`).
- Nil genome pointers: Go lets `NewSpecies` and `AddGenome` take `nil`, and `FitnessShare` would then fail on it. The model's genomes are non-null references.
- Go's slice aliasing: `Genomes()` returns a slice that shares storage with the field. The model returns the sequence as a value.
- Neat.Species.FitnessShare: its frame is the member genome objects as a whole. It is not the `fitness` field alone. Its ensures states separately that every `gid` is unchanged.
- Neat.Species.FitnessShare: the closed formula for distinct ids (`raw / adjustment`, or 0.0) is not in the method's ensures. It follows from the method's ensures together with `SharedDistinct`.
- Calling the sharing pass twice without re-evaluating raw fitness divides again by the same adjustments. This follows from the `FitnessShare` contract applied twice and needs no lemma of its own.
- Population-level speciation, reproduction and the per-generation increment of `age` are not in species.go, so they are not modelled. Within the model, no method changes `age` after construction.
- Concurrency: the code is single-threaded.
