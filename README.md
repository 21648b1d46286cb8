# NEAT population controller: one generation step

This project models the evolutionary control loop of a NEAT (NeuroEvolution
of Augmenting Topologies) trainer, written for the Unity game engine. The
controller (`Manager`) holds a list of genomes, the networks evaluated from
them, and a list of species. One generation has three phases:

- **Speciation** (`AssignSpecies`). Each genome, in list order, joins the
  *first* species whose mascot is within the compatibility threshold 3.0. If
  none matches, it founds a new species at the end of the list. A
  genome-to-species dictionary records the choice. Empty species are then
  removed, and every survivor re-draws its mascot from its current members.
- **Explicit fitness sharing** (the first half of `SortNets`). Each network's
  fitness is divided by the member count of its genome's species, and the
  shared value is added to that species' fitness total. The networks are
  then sorted.
- **Reproduction** (`NextGen`):
  - the generation counter advances;
  - the genomes of the first `(int)(population * 0.1)` networks are copied;
  - each species, in list order, breeds children from two randomly drawn
    members, the fitter one dominant;
  - a roll per new genome picks one of four mutually exclusive mutation bands;
  - the species are emptied;
  - the new genome list and its length replace `genomes` and `population`.

The model is imperative where the controller is. `Species` and `Manager` are
classes whose methods update their fields in place, and every loop of the
source is a `while` loop with invariants. Each method is proved against a
value-level specification:

- `Place`/`PlaceAll` (first-match classification), `Kept`, `Survivors` and
  `Redrawn` (pruning and mascot re-draw) for speciation;
- `SharedFitnesses` and `ShareOf` for sharing;
- `Quota`, `Quotas`, `Layout`, `CrossoverOrder`, `Bred` and `Band` for
  reproduction.

The lemmas beside those functions state what the controller promises. Every
genome is in exactly one species and the dictionary agrees. Pruning keeps
exactly the non-empty species, in order. Sharing conserves the total and
divides each species' total by its size. After the elites, the new genome
list holds the children in breeding order: species by species in exactly the
quota counts, each recorded with the two members it was bred from.

Modules:

| file | module | contents |
|---|---|---|
| `seqs.dfy` | `Seqs` | duplicate-freedom, selection by positions, sums |
| `genetics.dfy` | `Genetics` | genomes and networks as identities, crossover, the random index source |
| `speciation.dfy` | `Speciation` | the `Species` class and the first-match and pruning specifications |
| `sharing.dfy` | `Sharing` | the fitness-sharing specification and its conservation lemmas |
| `reproduction.dfy` | `Reproduction` | the constants, elite and offspring counts, parent order, mutation bands |
| `manager.dfy` | `Evolution` | the `Manager` class: speciation, sharing and reproduction in place |

Inputs the controller takes from the outside world are parameters:

- `distance` is the compatibility distance of two genomes.
- `pick(key, n)` is the random index below `n` drawn in the draw named
  `key` (the `IndexSource` predicate). The mascot of the species at position
  `k` before pruning uses key `k`. Child `c` of the generation uses keys `2c`
  and `2c + 1` for its parents.
- `roll(j)` is the mutation roll of the `j`-th new genome.
- `sorted` is the network order the sort produces.

## Model

| member | source | states |
|---|---|---|
| Speciation.Species.constructor | Assets/Scripts/Manager.cs:243-251 | a new species has its founder as sole member and as mascot, with fitness 0 |
| Speciation.Species.GetRandomGenome | Assets/Scripts/Manager.cs:253-256 | the drawn genome is the member at the drawn index, so it is a member |
| Speciation.Species.RandomizeMascot | Assets/Scripts/Manager.cs:258-261 | the new mascot is the member at the drawn index; members and fitness are untouched |
| Speciation.Species.AddMember | Assets/Scripts/Manager.cs:263-266 | the genome is appended at the end of the members, with no duplicate check |
| Speciation.Species.AddFitness | Assets/Scripts/Manager.cs:268-271 | the fitness total grows by exactly the added value; nothing else changes |
| Speciation.Species.Reset | Assets/Scripts/Manager.cs:288-292 | members become empty and fitness 0; the mascot is kept |
| Speciation.FirstMatchSpec | Assets/Scripts/Manager.cs:70-80 | the chosen species is within the threshold, strictly, and no earlier species is |
| Speciation.FirstMatchUnique | Assets/Scripts/Manager.cs:70-80 | conversely, a position where the species matches and nothing before it does is the first match |
| Speciation.PlaceSpec | Assets/Scripts/Manager.cs:69-87 | the genome is appended to the first matching species, or a new species with it as sole member and mascot is appended; all other species are unchanged |
| Speciation.HomesAreHome | Assets/Scripts/Manager.cs:67-88 | the recorded homes are, position by position, each genome's first match at its turn |
| Speciation.PlaceAllExtends | Assets/Scripts/Manager.cs:67-88 | classification never removes or reorders species, changes no mascot or fitness, only appends members; founded species have fitness 0 and one of the genomes as mascot |
| Speciation.MemberOfHome | Assets/Scripts/Manager.cs:67-88 | every classified genome is a member of its home species and stays one while later genomes are classified |
| Speciation.MembersComeFrom | Assets/Scripts/Manager.cs:67-88 | every member of a classified species was a member before or is one of the genomes classified so far |
| Speciation.ExactlyOneSpecies | Assets/Scripts/Manager.cs:67-88 | with distinct, not yet classified genomes, a genome is a member of a species if and only if it is its home |
| Speciation.Kept | Assets/Scripts/Manager.cs:92-102 | the positions that survive pruning hold non-empty species and are strictly increasing |
| Speciation.KeptComplete | Assets/Scripts/Manager.cs:92-97 | every non-empty species survives pruning |
| Speciation.Redrawn | Assets/Scripts/Manager.cs:92-102 | after the walk every non-empty species' mascot is one of its current members; members and fitness are unchanged, and empty species are untouched |
| Speciation.SurvivorsStep | Assets/Scripts/Manager.cs:92-97 | one backward step: removing an empty species at position `n`, or keeping a non-empty one, extends the survivors by that position |
| Speciation.SurvivorsAreKept | Assets/Scripts/Manager.cs:92-102 | what the backward removal walk leaves is exactly the species at the kept positions, in their original order |
| Sharing.ShareOfFirstAll | Assets/Scripts/Manager.cs:161-165 | accumulating position by position gives the species' whole share |
| Sharing.ShareOfAbsent | Assets/Scripts/Manager.cs:164 | a species that owns no network receives nothing |
| Sharing.OneOwner | Assets/Scripts/Manager.cs:164 | a value is counted once, for its owner only, over distinct species |
| Sharing.ShareOfAllAppend | Assets/Scripts/Manager.cs:161-165 | handling one more network adds its value to the species totals exactly once |
| Sharing.SharesPartitionTotal | Assets/Scripts/Manager.cs:161-165 | when every owner is one of the distinct species, the species' shares add up to the sum of all shared values |
| Sharing.SharedTotalIsRawOverCount | Assets/Scripts/Manager.cs:163-164 | a species with `n` members receives its raw total divided by `n` |
| Reproduction.Trunc | Assets/Scripts/Manager.cs:193 | the `(int)` cast truncates toward zero, for both signs |
| Reproduction.Quota | Assets/Scripts/Manager.cs:193 | the loop count is at least the bound, and one less is below it |
| Reproduction.QuotaCounts | Assets/Scripts/Manager.cs:193 | `i` is below the count if and only if `i` is below the real bound |
| Reproduction.ElitesIsTenth | Assets/Scripts/Manager.cs:184-187 | the elite count is the population divided by 10, rounded down, and 0 for a negative population |
| Reproduction.NoWholeFitnessNoChildren | Assets/Scripts/Manager.cs:193 | a species whose fitness truncates to 0 gets no children |
| Reproduction.QuotasCanOvershoot | Assets/Scripts/Manager.cs:176-208 | 11 genomes with species of fitness 1 and 2 give 1 elite and 4 + 7 children, 12 genomes in all |
| Reproduction.Layout | Assets/Scripts/Manager.cs:191-208 | the number of children is the sum of the quotas |
| Reproduction.LayoutOrdered | Assets/Scripts/Manager.cs:191-209 | each child belongs to one of the species, and the children come species by species in list order |
| Reproduction.LayoutCount | Assets/Scripts/Manager.cs:191-209 | species `k` has exactly its quota of children |
| Reproduction.FitterDominates | Assets/Scripts/Manager.cs:199-206 | with unequal fitnesses the fitter parent dominates whatever the draw order; on a tie the second draw dominates |
| Reproduction.Band | Assets/Scripts/Manager.cs:211-227 | exactly one of the four outcomes, each if and only if the roll is in its band: below 0.8, in [0.8, 0.83), in [0.83, 0.88), or from 0.88 on |
| Genetics.Crossover | Assets/Scripts/Manager.cs:197-207 | each child is a new genome |
| Evolution.DictOfStable | Assets/Scripts/Manager.cs:66-88 | entries already written do not change when species or genomes are appended later |
| Evolution.DictOfLookup | Assets/Scripts/Manager.cs:66-88 | with distinct genomes the dictionary's keys are the classified genomes, each mapped to its home species |
| Evolution.HomeSurvives | Assets/Scripts/Manager.cs:92-102 | a species with a member is in the pruned list |
| Evolution.SpeciationOutcome | Assets/Scripts/Manager.cs:64-105 | after speciation the dictionary's keys are exactly the genomes; each genome is a member of the species it maps to, which survives pruning; the pruned list has no duplicates |
| Evolution.ShareFitness | Assets/Scripts/Manager.cs:161-165 | each network ends with its raw fitness over its species' member count; each species' total grows by exactly the sum of its networks' shared values; members and mascots are unchanged |
| Evolution.ShareAll | Assets/Scripts/Manager.cs:161-165 | the sharing loop leaves every network shared and every species' total grown by its whole share |
| Evolution.ShareStep | Assets/Scripts/Manager.cs:163-164 | one network is divided and its value added to its own species only |
| Evolution.RedrawStep | Assets/Scripts/Manager.cs:98-101 | re-drawing one survivor's mascot extends the re-drawn suffix by one position and touches no other species |
| Evolution.BredExtend | Assets/Scripts/Manager.cs:191-209 | appending one species' children extends the species-by-species layout by that species |
| Evolution.BreedAll | Assets/Scripts/Manager.cs:191-209 | child `c` in the list is the child of birth `c` of the log; the log is laid out species by species in quota counts, each birth from two members of its species ordered by network fitness; the children are new and pairwise distinct |
| Evolution.BreedStep | Assets/Scripts/Manager.cs:191-209 | one species of the breeding loop adds its quota of new, pairwise distinct children, in the order of their births, extending the species-by-species layout and the child list by that species |
| Evolution.BreedSpecies | Assets/Scripts/Manager.cs:193-208 | one species yields exactly its quota of new, pairwise distinct children; child `c` is the child of birth `c`, bred from two drawn members, the strictly fitter one dominant and the second draw on a tie |
| Evolution.Manager.AssignSpecies | Assets/Scripts/Manager.cs:64-105 | the species contents are the first-match classification of the genomes in order; founded species are new and appended; the list becomes the non-empty species in order, each mascot re-drawn from its members; the dictionary maps each genome to its home species |
| Evolution.Manager.FirstCompatible | Assets/Scripts/Manager.cs:70-80 | the scan stops at the first species within the threshold, and reports not found exactly when none is |
| Evolution.Manager.ClassifyGenomes | Assets/Scripts/Manager.cs:66-88 | the loop over the genomes yields the first-match classification, appends only new species, and builds the dictionary of homes |
| Evolution.Manager.ClassifyStep | Assets/Scripts/Manager.cs:67-88 | one genome extends the classification, the homes and the dictionary by one |
| Evolution.Manager.ClassifyOne | Assets/Scripts/Manager.cs:69-87 | the genome joins its first match, or a new species is appended with it; the dictionary maps it there |
| Evolution.Manager.PruneSpecies | Assets/Scripts/Manager.cs:92-102 | the backward walk leaves the non-empty species in order, and each has its mascot re-drawn from its members |
| Evolution.Manager.PruneStep | Assets/Scripts/Manager.cs:94-101 | one position of the backward walk: an empty species is removed, a non-empty one re-rolls its mascot, extending the survivors and the re-drawn mascots by that position |
| Evolution.Manager.SortNets | Assets/Scripts/Manager.cs:159-170 | fitness sharing as in `ShareFitness`, then the networks in the sorted order |
| Evolution.Manager.NextGen | Assets/Scripts/Manager.cs:172-235 | generation + 1; genomes are the elites' genomes in order, then new, pairwise distinct children, the `c`-th being the child of birth `c`, so they are laid out species by species in quota counts, each bred from two members; the list is duplicate-free when the elites' genomes are; one band per new genome, elites included; population is the new length; every species is empty with fitness 0 |
| Evolution.Manager.Install | Assets/Scripts/Manager.cs:174-234 | the generation advances by one, every species is emptied with fitness 0 keeping its mascot, and the new list and its length become `genomes` and `population` |
| Evolution.Manager.Offspring | Assets/Scripts/Manager.cs:175-227 | the new genome list is the elite prefix followed by the children of the births in order, with one mutation band per genome |
| Evolution.Manager.NewGenomes | Assets/Scripts/Manager.cs:175-209 | the elites' genomes, then the children of the births in order, new and pairwise distinct, in quota layout; duplicate-free as a whole when the elites' genomes are |
| Evolution.ElitesThenChildren | Assets/Scripts/Manager.cs:184-209 | appending new children to the elites keeps the elites as the prefix and the children as the rest; distinct children, none of them an elite, keep the list duplicate-free when the elites are |
| Evolution.Manager.TotalFitness | Assets/Scripts/Manager.cs:175-182 | the total is the sum of the species' fitness totals |
| Evolution.Manager.CopyElites | Assets/Scripts/Manager.cs:184-187 | the first `e` networks' genomes, in order |
| Evolution.Manager.ChooseMutations | Assets/Scripts/Manager.cs:211-227 | the `j`-th new genome gets the band of `roll(j)` |
| Evolution.Manager.ResetSpecies | Assets/Scripts/Manager.cs:229-232 | every species is emptied with fitness 0, keeping its mascot |

Two points where the code departs from the textbook NEAT rules; the model
follows the code:

- **Offspring count.** The textbook rule gives each species
  `floor(speciesFitness / totalFitness * remainingBudget)` offspring. In the
  code only the species fitness is cast to `int`. The loop then runs once
  for every natural below the resulting real bound, which rounds a
  fractional bound up (`Quota`, `QuotaCounts`). So the next generation can be
  larger than the population, not only smaller (`QuotasCanOvershoot`).
- **Dominant parent.** The textbook rule has the fitter parent dominate. On
  equal network fitness the code makes the second drawn parent dominant
  (`FitterDominates`).

## Left out

- The game-engine side is not modelled: `Start`, `Update`, `MakePlayers`,
  `StartTraining`, `TrainingComplete` and `DestroyPlayers`. `nets` and
  `networkMap` are taken as evaluation leaves them.
- The `Debug.Log` calls at lines 104 and 169 are left out. The second one
  indexes `nets[population - 1]`, which the model does not require to exist.
- The genome's genes and `GenomeUtils` are not part of this model. The
  compatibility distance (with C1, C2 and C3) is the parameter `distance`.
  Crossover only promises a new genome. Each birth record names the child,
  its two parents and their order, but nothing ties the child's genes to them.
- The three mutation operators are not applied. `ChooseMutations` and
  `NextGen` record the band each new genome's roll selects. So the model does
  not show that an elite's genome, shared with the old generation, is mutated
  in place.
- `System.Random` is replaced by the draws `pick` and `roll`. Mascot re-draws,
  parent draws and mutation rolls come from separate keys. In the code the
  parent draws and rolls come from one generator in call order.
- The network comparer used by `nets.Sort()` is not part of this model.
  `SortNets` takes the sorted order as the parameter `sorted`, a permutation
  of `nets`.
- Single-precision floats are reals: fitness, rates, rolls and the offspring
  bound. Rounding is not modelled.
- NextGen: requires the species' fitness total to be non-zero when there are
  species. The code divides by it unguarded. In single precision a species
  whose fitness truncates to 0 then gets the bound 0/0, which is NaN.
  `i < NaN` is false, so it gets no children. If every species is like this,
  the next generation holds only the elites. A negative truncated fitness
  gives minus infinity and no children either. A positive one gives plus
  infinity (when `leftPopulation` is positive), and that loop never ends.
  The model does not describe these float outcomes.
- NextGen: requires `Elites(population) <= |nets|`. It also requires every
  species with a positive quota to have members, all with an evaluated
  network. In the code these cases throw an exception instead.
- AssignSpecies: requires the genomes to be pairwise distinct, because
  `Dictionary.Add` throws on a duplicate genome. It also requires the species
  list to be duplicate-free, which the controller maintains.
- SortNets: requires every network's genome to be in the species dictionary
  with a non-empty species, and the networks to be distinct. After
  speciation and network creation this always holds (`SpeciationOutcome`).
- NextGen: increments the generation after building the new genomes instead
  of first. Nothing in between reads it.
- FirstCompatible: scans for the first compatible species and then adds the
  genome. The code adds the genome inside the scan and breaks out, with the
  same result.
