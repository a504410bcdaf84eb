# Artificial-life population, modelled in Dafny

The model covers an artificial-life simulation. A population is a fixed-size
list of organisms, and each organism carries a non-negative energy counter.
There are three strategy variants:

- a `Cooperator` always cooperates;
- a `Defector` never cooperates;
- a `PartialCooperator` cooperates on a coin flip.

Each tick of `Population.update()` visits the members in index order. Each
member:

- gains one unit of energy;
- may pay one unit to give one unit to each of min(size - 1, 8) distinct other
  members;
- reproduces into a random other slot once its energy reaches 10 (its own slot
  when it is the only member). The child
  has the parent's variant and no energy, and the parent is drained to zero.

A census map from type name to count is updated on every reproduction. The
mean cooperation probability is computed from that map.

Files:

- `wrappers.dfy`: `Option` and `Result`.
- `randomness.dfy`: the random source as an oracle. The `n`-th draw is
  `source(n)`. The `do/while` rejection loops are modelled by what they yield.
- `organisms.dfy`: the organism class and its three variants.
- `census.dfy`: per-variant counts, the census update of a reproduction, and
  the cooperation mean.
- `tick.dfy`: one tick as a function on values, `Tick`. It is `Steps` over
  every member: the first `n` member updates in index order, each applied to
  the state the ones before it left. One member's update is `Step`, which is
  gain, then `CooperationPhase`, then `ReproductionPhase`. The file also
  holds the lemmas about cooperation, reproduction and the census.
- `population.dfy`: the `Population` class.
  - Its `members` field is a `seq<Organism>`. It is reassigned on `set`.
  - Its `counts` field is the census map.
  - A ghost `model` holds the members' values.
  - Every method of the update is proved against the tick functions.
    After `i` rounds of its loop, `Update` stands where `Steps` puts the
    first `i` member updates. It ends in the state `Tick` computes from the
    state it started in.
  - The constructor is proved against the requested counts (`Requested`,
    `CountOf`), and the shuffle is proved to be a permutation.

The Java class hierarchy becomes one class, `Organism`, with an immutable
`kind`. The variant-specific methods become functions that match on the kind.
Each slot of the list is its own object (`Distinct`), so giving energy to one
member changes no other member.

## Model

| member | source | states |
|---|---|---|
| Organisms.Organism.constructor | Organism.java:12-14 | a new organism of any variant has energy 0 |
| Organisms.Organism.Update | Organism.java:19-21 | the passive update raises energy by exactly one |
| Organisms.Organism.GetEnergy | Organism.java:26-28 | reads the energy and changes nothing |
| Organisms.Organism.IncrementEnergy | Organism.java:33-35 | energy rises by exactly one, unconditionally |
| Organisms.Organism.DecrementEnergy | Organism.java:40-44 | energy falls by one when positive and stays 0 at 0, so it is never negative |
| Organisms.Organism.Cooperates | PartialCooperator.java:50-53 | the answer is the variant's decision on the next coin; only a partial cooperator consumes a draw, and energy is untouched |
| Organisms.Organism.Reproduce | Cooperator.java:33-38 | the drain loop terminates with the parent at energy 0 and returns a fresh organism of the parent's variant with energy 0; this holds for all three variants (also Defector.java:28-33 and PartialCooperator.java:29-34) |
| Organisms.TypeName | Cooperator.java:24-26 | each variant's type name is one of the three accepted names |
| Organisms.TypeNameRoundTrip | Defector.java:19-21 | parsing a variant's type name gives back that variant, so the three names (also PartialCooperator.java:20-22) are distinct |
| Organisms.ParseType | Population.java:37-56 | a name is accepted exactly when it is one of the three type names, and it maps to the variant with that name |
| Organisms.Decremented | Organism.java:40-44 | one less for a positive energy, and 0 stays 0 |
| Organisms.CooperationProbability | Cooperator.java:45-47 | the probabilities are 1, 0 and 0.5, all within [0, 1] |
| Organisms.Decision | Defector.java:49-51 | a variant that does not toss a coin cooperates exactly when its probability is 1; a partial cooperator follows its coin |
| Organisms.DecisionMatchesProbability | PartialCooperator.java:41-53 | probability 1 means always, 0 means never, and 0.5 means the coin decides, so both outcomes occur |
| Randomness.Draw | Population.java:100 | the `n`-th draw of `nextInt(bound)` is below the bound |
| Randomness.Coin | PartialCooperator.java:52 | the `n`-th `nextBoolean()` is true exactly when the draw taken modulo 2 is 1 |
| Randomness.CoinEitherWay | PartialCooperator.java:50-53 | `nextBoolean()` can produce either outcome |
| Randomness.Random.NextInt | Population.java:100 | the draw is below the bound and is the oracle's next value; exactly one draw is consumed |
| Randomness.Random.NextBoolean | PartialCooperator.java:51-52 | the coin is the oracle's next value; exactly one draw is consumed |
| Randomness.EligibleExactly | Population.java:99-105 | the indices the rejection loop accepts are exactly those below the size and not excluded, each once and ascending |
| Randomness.FreeIndex | Population.java:98-105 | while fewer indices are excluded than exist, some index is free |
| Randomness.EligibleNonEmpty | Population.java:113-118 | every rejection loop of the update has an index it accepts |
| Randomness.DrawAvoiding | Population.java:99-105 | the index a rejection loop settles on is in range and not excluded |
| Randomness.EveryEligibleReachable | Population.java:99-105 | every acceptable index is the outcome of some draw |
| Randomness.Random.NextIntAvoiding | Population.java:116-118 | the loop's result is in range, not excluded, and equals the index the specification draws |
| Census.CountAppend | Population.java:38-51 | the count of a variant in a joined list is the sum of the counts of the parts |
| Census.CountReplace | Population.java:122 | overwriting one member moves one unit of count from its old variant to the new one |
| Census.CountTotal | Population.java:20 | the three per-variant counts add up to the population size |
| Census.CountCopies | Population.java:38-51 | `n` copies of one variant count `n` for that variant and 0 for the others |
| Census.CountMember | Population.java:31-57 | the variant of every member is counted at least once |
| Census.CountAbsent | Population.java:124-125 | a variant without a census entry has no members, when every member's variant has one |
| Census.Recount | Population.java:124-125 | the census update after a reproduction keeps the key set |
| Census.RecountTracksReplacement | Population.java:122-125 | after an overwrite and its census update, every entry is as far from the true count as before |
| Census.AgreementFromOffsets | Population.java:124-125 | a census that matched the members still matches them while the offsets are unchanged |
| Census.CensusSum | Population.java:20 | a matching census whose keys are type names sums, with absent keys as 0, to the population size |
| Census.CooperationMean | Population.java:134-149 | (C + P/2) / size from the map, absent keys counting 0; no value exactly when the size is 0 |
| Census.MeanInUnitInterval | Population.java:134-149 | with a matching census, the mean is the average cooperation probability of the members and lies in [0, 1] |
| Census.MeanExample | Population.java:134-149 | 3 cooperators, 2 defectors and 1 partial cooperator give 3.5 / 6 |
| TickSpec.Gain | Population.java:107 | the member at `t` gains exactly one unit and keeps its variant; every other member and the size are unchanged |
| TickSpec.Pay | Population.java:91 | the member at `t` pays one unit when it has one and stays at 0 otherwise, keeping its variant; every other member and the size are unchanged |
| TickSpec.FanOut | Population.java:98-108 | the fan-out keeps the population size; what it chooses and gives is stated by `FanOutChoices` and `FanOutEnergy` |
| TickSpec.CooperationPhase | Population.java:90-109 | the cooperation step keeps the population size; its effect is stated by `CooperationEffect` |
| TickSpec.ReproductionPhase | Population.java:112-126 | the reproduction step keeps the size, and every member's variant still has a census entry; its effect is stated by `ReproductionEffect` |
| TickSpec.Step | Population.java:86-126 | one member's update keeps the size and keeps every member's variant listed in the census |
| TickSpec.Steps | Population.java:85-127 | the first `n` member updates, in index order, keep the size and keep every member's variant listed in the census |
| TickSpec.Tick | Population.java:85-127 | a whole tick, every member updated in index order and each seeing the updates before it, keeps the size and keeps every member's variant listed in the census; its census invariant is `TickKeepsCensus` |
| TickSpec.Partners | Population.java:95 | a cooperator benefits min(size - 1, 8) others |
| TickSpec.ReplacementTarget | Population.java:113-118 | the target is another index when the size exceeds 1, and the parent's own index when the size is 1 |
| TickSpec.FanOutStep | Population.java:99-107 | one round draws an index neither the cooperator nor chosen before, and that member gains one unit |
| TickSpec.FanOutChoices | Population.java:98-108 | the fan-out chooses exactly `k` partners, all distinct and none the cooperator, and consumes one loop per partner |
| TickSpec.FanOutEnergy | Population.java:98-108 | each partner chosen gains exactly one unit, everyone else is unchanged, and no variant changes |
| TickSpec.EnergyAfterDraw | Population.java:99-107 | if the rounds after a draw give one unit to each partner they choose, then so do the rounds from before it, counting the partner just drawn |
| TickSpec.CooperationEffect | Population.java:90-109 | cooperation happens exactly when the decision is yes and the size exceeds 1; then the cooperator pays one (floored), exactly min(size - 1, 8) distinct others gain one each, and nothing else changes; otherwise nothing changes |
| TickSpec.ReproductionEffect | Population.java:112-126 | reproduction happens exactly at energy 10 or more; the child (parent's variant, energy 0) sits at the target, the parent is drained, no other slot changes, and the census moves one unit from the displaced variant to the parent's |
| TickSpec.StepKeepsOffsets | Population.java:86-126 | one member's update keeps every census entry as far from the true count as it was |
| TickSpec.StepsKeepOffsets | Population.java:85-127 | any number of member updates in index order keep every census entry as far from the true count as it was |
| TickSpec.TickKeepsCensus | Population.java:78-128 | a tick keeps the census keys; a census that matched the members before the tick matches them after it |
| Populations.AddOrganisms | Population.java:38-51 | the `add` loop appends max(n, 0) fresh organisms of one variant with energy 0 and keeps the slots distinct |
| Populations.Shuffle | Population.java:63 | the shuffle returns a permutation of the list |
| Populations.CountReordered | Population.java:63 | permuting the new organisms leaves each variant's count unchanged |
| Populations.CountLastMoved | Population.java:63 | moving the last organism to any position keeps each variant's count, given the rest already agree |
| Populations.Population.Of | Population.java:28-29 | the new population holds exactly the given members and census |
| Populations.Population.Build | Population.java:31-57 | the loop over the request fails exactly on a name that is not a type name; otherwise it builds distinct fresh organisms with energy 0, with the requested number of each variant |
| Populations.Population.Create | Population.java:27-64 | construction fails exactly on an unknown type name; otherwise the census is the request, the size is the sum of the positive counts, each variant has its requested count, all energies are 0, and the census matches when no count is negative |
| Populations.Population.GrowAt | Population.java:86-87 | the visited member gains one unit and nothing else changes |
| Populations.Population.PayAt | Population.java:91 | the cooperator pays one unit, floored at 0, and nothing else changes |
| Populations.Population.GainAt | Population.java:107 | the chosen partner gains one unit and nothing else changes |
| Populations.Population.GiveOne | Population.java:99-107 | one round of the fan-out matches one step of the specification's fan-out |
| Populations.Population.Distribute | Population.java:96-108 | the fan-out loop ends in the specification's fan-out state with the same number of loops |
| Populations.Population.Contribute | Population.java:91-108 | pay, then fan out to min(size - 1, 8) others, as the specification does |
| Populations.Population.Cooperate | Population.java:90-109 | the cooperation step ends in the state `CooperationPhase` computes |
| Populations.Population.Offspring | Population.java:122 | the parent is drained to 0 and a fresh child of its variant is made; the list is unchanged |
| Populations.Population.PlaceOffspring | Population.java:120-125 | the child overwrites the target slot and the census moves one unit from the displaced variant to the parent's |
| Populations.Population.Reproduce | Population.java:112-126 | the reproduction step ends in the state `ReproductionPhase` computes |
| Populations.Population.UpdateMember | Population.java:86-126 | one member's update ends in the state `Step` computes |
| Populations.Population.UpdateNext | Population.java:85-127 | a loop round that starts where the first `i` member updates of the tick leave the population ends where the first `i + 1` leave it |
| Populations.Population.Update | Population.java:78-128 | the tick keeps the size and ends in the state `Tick` computes; later slots are seen with any offspring written earlier in the pass |
| Populations.Population.CalculateCooperationMean | Population.java:134-149 | no value exactly when the population is empty; with a matching census, the mean of the members' probabilities, within [0, 1] |
| Populations.Population.GetPopulationCounts | Population.java:155-157 | with a matching census, each lookup gives the true count of its variant |

## Left out

- ALifeSim.java is not part of this model. It parses the command line, prints the results and exits.
- The statistical quality of `java.util.Random` is not modelled. Draws come from an oracle `source: nat -> nat`. Any sequence of draws the generator could produce is one choice of `source`.
- Three generators are folded into one draw sequence: the `Random` created in `update`, the one created in each `PartialCooperator.cooperates` call, and the one inside `Collections.shuffle`.
- Randomness.Random.NextIntAvoiding: each `do/while` rejection loop is modelled as one draw among the indices the loop accepts. The number of rejected draws is not modelled, nor is the loop's termination with probability 1. The `calls` counter therefore counts loops, not raw draws.
- Populations.Shuffle: states only that the result is a permutation. It follows the swap order of the JDK algorithm but does not state which permutation.
- `double` arithmetic is modelled as `real`. The probabilities 0, 0.5 and 1 and the mean (C + P/2) / size are exact rationals. A division by a size of 0 gives NaN or infinity in Java and is modelled as `None`.
- Java `int` overflow of an energy counter or a census entry is not modelled. Both are unbounded here.
- Aliasing is not modelled. The Java constructor stores the caller's map, `update` mutates it, and `getPopulationCounts` returns it live. Here the census is a value the population owns.
- `HashMap` key iteration order is not modelled. The constructor takes the keys in an arbitrary order. Counts and failure do not depend on that order.
- On an unknown type name the constructor throws after possibly having added some organisms. The model returns `Failure` and keeps no partial population.
- Populations.Population.Create: a negative count adds no members, as the Java loop does, but stays in the census. The census then does not match the members, so agreement is promised only when no count is negative.
- Populations.Population.Update: states the census invariant through `TickKeepsCensus` on the value it is proved equal to, not in its own postcondition.
