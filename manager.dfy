/**
 * The population controller: one generation's speciation, fitness sharing and
 * reproduction, acting in place on the controller's fields and on its species.
 *
 * The game-engine side (creating and destroying the agents that evaluate the
 * networks, and polling for their completion) is not modelled; `nets` and
 * `networkMap` are taken as the evaluation phase leaves them.
 */
module Evolution {
  import opened Seqs
  import opened Genetics
  import opened Speciation
  import opened Sharing
  import opened Reproduction

  /** The dictionary built by classifying the first `n` genomes: `gs[t]` is
      mapped to the species at position `homes[t]` of `list`, later entries
      overriding earlier ones. */
  ghost function DictOf(gs: seq<Genome>, homes: seq<nat>, list: seq<Species>, n: nat): map<Genome, Species>
    requires n <= |gs| && n <= |homes|
  {
    if n == 0 then map[]
    else
      var d := DictOf(gs, homes, list, n - 1);
      if homes[n - 1] < |list| then d[gs[n - 1] := list[homes[n - 1]]] else d
  }

  /** The dictionary only depends on the positions recorded so far and on the
      species at those positions, so it survives appending to either list. */
  lemma {:induction false} DictOfStable(gs: seq<Genome>, homes: seq<nat>, list: seq<Species>,
                                        homes': seq<nat>, list': seq<Species>, n: nat)
    requires n <= |gs| && n <= |homes| && n <= |homes'|
    requires forall t :: 0 <= t < n ==> homes'[t] == homes[t] && homes[t] < |list|
    requires |list| <= |list'| && forall k :: 0 <= k < |list| ==> list'[k] == list[k]
    ensures DictOf(gs, homes', list', n) == DictOf(gs, homes, list, n)
  {
    if n > 0 {
      DictOfStable(gs, homes, list, homes', list', n - 1);
    }
  }

  /** With distinct genomes nothing is overridden: the keys are the classified
      genomes, and each maps to the species at its recorded position. */
  lemma {:induction false} DictOfLookup(gs: seq<Genome>, homes: seq<nat>, list: seq<Species>, n: nat)
    requires Injective(gs)
    requires n <= |gs| && n <= |homes|
    requires forall t :: 0 <= t < n ==> homes[t] < |list|
    ensures forall g :: g in DictOf(gs, homes, list, n) ==> g in gs
    ensures forall t :: 0 <= t < n ==>
      gs[t] in DictOf(gs, homes, list, n) && DictOf(gs, homes, list, n)[gs[t]] == list[homes[t]]
  {
    if n > 0 {
      DictOfLookup(gs, homes, list, n - 1);
      forall t | 0 <= t < n - 1
        ensures DictOf(gs, homes, list, n)[gs[t]] == list[homes[t]]
      {
        assert IndexOf(gs, gs[t]) != IndexOf(gs, gs[n - 1]);
      }
    }
  }

  /** A species with a member is among the ones pruning keeps. */
  lemma HomeSurvives(placed: seq<Species>, views: seq<SpeciesView>, k: nat)
    requires |placed| == |views| && k < |views| && views[k].members != []
    ensures placed[k] in Select(placed, Kept(views, 0))
  {
    KeptComplete(views, 0, k);
    var ks := Kept(views, 0);
    var j :| 0 <= j < |ks| && ks[j] == k;
    assert Select(placed, ks)[j] == placed[k];
  }

  /** What a speciation pass leaves, in value terms: with distinct genomes the
      dictionary has exactly the genomes as keys; each genome is a member of
      the species at its recorded position and the dictionary maps it to that
      species, which survives pruning (it is non-empty); and the pruned list
      holds no species twice. */
  lemma SpeciationOutcome(distance: (Genome, Genome) -> real, start: seq<SpeciesView>, gs: seq<Genome>,
                          placed: seq<Species>, views: seq<SpeciesView>, homes: seq<nat>)
    requires Injective(gs)
    requires views == PlaceAll(distance, start, gs, |gs|)
    requires homes == Homes(distance, start, gs, |gs|)
    requires |placed| == |views| && Injective(placed)
    ensures forall g :: g in DictOf(gs, homes, placed, |gs|) <==> g in gs
    ensures forall t :: 0 <= t < |gs| ==>
      && homes[t] < |views| && gs[t] in views[homes[t]].members
      && DictOf(gs, homes, placed, |gs|)[gs[t]] == placed[homes[t]]
      && placed[homes[t]] in Select(placed, Kept(views, 0))
    ensures Distinct(Select(placed, Kept(views, 0)))
  {
    HomesAreHome(distance, start, gs, |gs|);
    forall t | 0 <= t < |gs|
      ensures homes[t] < |views| && gs[t] in views[homes[t]].members
      ensures placed[homes[t]] in Select(placed, Kept(views, 0))
    {
      MemberOfHome(distance, start, gs, |gs|, t);
      HomeSurvives(placed, views, homes[t]);
    }
    DictOfLookup(gs, homes, placed, |gs|);
    DistinctInjective(placed);
    SelectDistinct(placed, Kept(views, 0));
  }

  /** The species list holds, position by position, the species contents
      `views`, and holds no species twice. */
  ghost predicate Tracks(views: seq<SpeciesView>, speciesList: seq<Species>)
    reads speciesList
  {
    && |speciesList| == |views|
    && Injective(speciesList)
    && forall k :: 0 <= k < |speciesList| ==> speciesList[k].View() == views[k]
  }

  /** The fitness total of each species, in order. */
  function Totals(list: seq<Species>): (ts: seq<real>)
    reads list
    ensures |ts| == |list|
    ensures forall k :: 0 <= k < |list| ==> ts[k] == list[k].fitness
  {
    seq(|list|, k reads list requires 0 <= k < |list| => list[k].fitness)
  }

  /** The sharing loop has handled the first `i` networks: those hold their
      shared fitness, the rest their raw one, and each owner's total is its
      starting total `base` plus the shared values of the handled networks it owns. */
  ghost predicate SharedUpTo(ns: seq<Network>, owners: seq<Species>, raw: seq<real>, shared: seq<real>,
                             base: seq<real>, i: nat)
    reads ns, owners
  {
    && i <= |ns| == |owners| == |raw| == |shared| == |base|
    && forall j :: 0 <= j < |ns| ==>
      && ns[j].fitness == (if j < i then shared[j] else raw[j])
      && owners[j].fitness == base[j] + ShareOfFirst(owners, shared, owners[j], i)
  }

  /** The evaluated fitness of each genome's network. */
  function NetworkFitness(networkMap: map<Genome, Network>): (fit: map<Genome, real>)
    reads networkMap.Values
    ensures fit.Keys == networkMap.Keys
    ensures forall g :: g in networkMap ==> fit[g] == networkMap[g].fitness
  {
    map g | g in networkMap :: networkMap[g].fitness
  }

  /** A species can breed: it has members to draw from, and each member has an
      evaluated network. */
  predicate Breedable(species: Species, networkMap: map<Genome, Network>)
    reads species
  {
    |species.members| > 0 && forall g :: g in species.members ==> g in networkMap
  }

  /** Fitness sharing over the networks `ns`: each network's fitness is divided
      by the member count of its genome's species, and the shared value is added
      to that species' total. */
  method ShareFitness(ns: seq<Network>, speciesMap: map<Genome, Species>)
      returns (ghost owners: seq<Species>, ghost raw: seq<real>, ghost shared: seq<real>)
    requires Injective(ns)
    requires forall i :: 0 <= i < |ns| ==>
      ns[i].genome in speciesMap && |speciesMap[ns[i].genome].members| > 0
    modifies ns, Owners(ns, speciesMap)
    ensures owners == Owners(ns, speciesMap) && raw == old(NetFitnesses(ns))
    ensures shared == old(SharedFitnesses(owners, raw))
    ensures forall i :: 0 <= i < |shared| ==>
      && ns[i].fitness == shared[i]
      && owners[i].members == old(owners[i].members) && owners[i].mascot == old(owners[i].mascot)
      && owners[i].fitness == old(owners[i].fitness) + ShareOf(owners, shared, owners[i])
  {
    owners := Owners(ns, speciesMap);
    raw := NetFitnesses(ns);
    shared := SharedFitnesses(owners, raw);
    ghost var base := Totals(owners);
    ShareAll(ns, speciesMap, owners, raw, shared, base);
    assert owners[..|ns|] == owners && shared[..|ns|] == shared;
    forall j | 0 <= j < |ns|
      ensures ShareOfFirst(owners, shared, owners[j], |ns|) == ShareOf(owners, shared, owners[j])
    {
      ShareOfFirstAll(owners, shared, owners[j], |ns|);
    }
  }

  /** The sharing loop of `SortNets`, over the networks `ns`. */
  method ShareAll(ns: seq<Network>, speciesMap: map<Genome, Species>, ghost owners: seq<Species>,
                  ghost raw: seq<real>, ghost shared: seq<real>, ghost base: seq<real>)
    requires Injective(ns)
    requires forall i :: 0 <= i < |ns| ==> ns[i].genome in speciesMap
    requires |raw| == |ns| == |owners| == |shared|
    requires forall i :: 0 <= i < |ns| ==> owners[i] == speciesMap[ns[i].genome]
    requires forall i :: 0 <= i < |ns| ==> |owners[i].members| > 0 && shared[i] == raw[i] / |owners[i].members| as real
    requires SharedUpTo(ns, owners, raw, shared, base, 0)
    modifies ns, owners
    ensures SharedUpTo(ns, owners, raw, shared, base, |ns|)
    ensures forall j :: 0 <= j < |ns| ==>
      owners[j].members == old(owners[j].members) && owners[j].mascot == old(owners[j].mascot)
  {
    var i := 0;
    while i < |ns|
      invariant 0 <= i <= |ns|
      invariant SharedUpTo(ns, owners, raw, shared, base, i)
      invariant forall j :: 0 <= j < |ns| ==>
        owners[j].members == old(owners[j].members) && owners[j].mascot == old(owners[j].mascot)
    {
      ShareStep(ns, i, ns[i], speciesMap[ns[i].genome], owners, raw, shared, base);
      i := i + 1;
    }
  }

  /** One network of the sharing loop: its fitness is divided by its species'
      member count and added to that species' total. */
  method ShareStep(ns: seq<Network>, i: nat, net: Network, species: Species, ghost owners: seq<Species>,
                   ghost raw: seq<real>, ghost shared: seq<real>, ghost base: seq<real>)
    requires i < |ns| == |owners| == |raw| == |shared| == |base|
    requires Injective(ns) && net == ns[i] && species == owners[i]
    requires |species.members| > 0 && shared[i] == raw[i] / |species.members| as real
    requires SharedUpTo(ns, owners, raw, shared, base, i)
    modifies net`fitness, species`fitness
    ensures SharedUpTo(ns, owners, raw, shared, base, i + 1)
  {
    label before:
    net.fitness := net.fitness / |species.members| as real;
    species.AddFitness(net.fitness);
    forall j | 0 <= j < |ns|
      ensures ns[j].fitness == (if j < i + 1 then shared[j] else raw[j])
      ensures owners[j].fitness == base[j] + ShareOfFirst(owners, shared, owners[j], i + 1)
    {
      if j != i {
        assert IndexOf(ns, ns[j]) == j;
      }
      assert owners[j].fitness == old@before(owners[j].fitness) + (if owners[j] == species then shared[i] else 0.0);
    }
  }

  /** The breeding loop has handled the first `k` species: the births so far
      follow the layout of their quotas, and each was bred from the members of
      its species in `views` with the fitness map `fit`. */
  ghost predicate BredUpTo(pick: (nat, nat) -> nat, views: seq<SpeciesView>, fit: map<Genome, real>,
                           qs: seq<nat>, k: nat, births: seq<Birth>)
    requires IndexSource(pick)
  {
    && k <= |qs| == |views|
    && BirthSpecies(births) == Layout(qs[..k])
    && forall c :: 0 <= c < |births| ==>
      births[c].species < k && Bred(pick, c, views[births[c].species].members, fit, births[c])
  }

  /** Appending the quota of species `k` extends the handled prefix by one. */
  lemma BredExtend(pick: (nat, nat) -> nat, views: seq<SpeciesView>, fit: map<Genome, real>,
                   qs: seq<nat>, k: nat, births: seq<Birth>, bs: seq<Birth>)
    requires IndexSource(pick)
    requires BredUpTo(pick, views, fit, qs, k, births) && k < |qs|
    requires BirthSpecies(bs) == Repeat(k, qs[k])
    requires forall c :: 0 <= c < |bs| ==> Bred(pick, |births| + c, views[k].members, fit, bs[c])
    ensures BredUpTo(pick, views, fit, qs, k + 1, births + bs)
  {
    assert qs[..k + 1][..k] == qs[..k];
    assert BirthSpecies(births + bs) == BirthSpecies(births) + BirthSpecies(bs);
    forall c | 0 <= c < |births + bs|
      ensures (births + bs)[c].species < k + 1
      ensures Bred(pick, c, views[(births + bs)[c].species].members, fit, (births + bs)[c])
    {
      if c >= |births| {
        assert (births + bs)[c] == bs[c - |births|];
        assert BirthSpecies(bs)[c - |births|] == k;
      }
    }
  }

  /** Classification has handled the first `i` genomes of `gs`: `views` is
      what they left of the starting species `start`, `list` the species
      objects holding exactly those contents, `homes` the positions the
      genomes joined, and `dict` the dictionary built along the way. */
  ghost predicate Classified(distance: (Genome, Genome) -> real, start: seq<SpeciesView>, gs: seq<Genome>, i: nat,
                             views: seq<SpeciesView>, homes: seq<nat>, list: seq<Species>, dict: map<Genome, Species>)
    reads list
  {
    && i <= |gs|
    && views == PlaceAll(distance, start, gs, i)
    && Tracks(views, list)
    && homes == Homes(distance, start, gs, i)
    && (forall t :: 0 <= t < i ==> homes[t] < |list|)
    && dict == DictOf(gs, homes, list, i)
  }

  /** The pruning walk has re-drawn the mascots of the non-empty species of
      `placed` from position `n` on; all else is as in `views`. */
  ghost predicate RedrawnFrom(pick: (nat, nat) -> nat, placed: seq<Species>, views: seq<SpeciesView>, n: nat)
    requires IndexSource(pick)
    reads placed
  {
    && |placed| == |views|
    && forall k :: 0 <= k < |placed| ==> placed[k].View() == Redrawn(pick, views, n)[k]
  }

  /** One non-empty species of the pruning walk re-rolls its mascot. */
  method RedrawStep(pick: (nat, nat) -> nat, ghost placed: seq<Species>, ghost views: seq<SpeciesView>, n: nat,
                    species: Species)
    requires IndexSource(pick)
    requires Injective(placed) && n < |placed| && species == placed[n]
    requires RedrawnFrom(pick, placed, views, n + 1) && |species.members| > 0
    modifies species`mascot
    ensures RedrawnFrom(pick, placed, views, n)
  {
    species.RandomizeMascot(pick(n, |species.members|));
    forall k | 0 <= k < |placed|
      ensures placed[k].View() == Redrawn(pick, views, n)[k]
    {
      if k != n {
        assert IndexOf(placed, placed[k]) == k;
      }
    }
  }

  /** The offspring of every species, in list order: species `k` gets its
      quota of children, numbered on from the ones before. */
  method BreedAll(pick: (nat, nat) -> nat, speciesList: seq<Species>, networkMap: map<Genome, Network>,
                  population: int, total: real, left: real) returns (children: seq<Genome>, births: seq<Birth>)
    requires IndexSource(pick)
    requires total == Sum(Totals(speciesList)) && left == LeftPopulation(population)
    requires speciesList != [] ==> total != 0.0
    requires forall k :: 0 <= k < |speciesList| && Quotas(Totals(speciesList), population)[k] > 0 ==>
      Breedable(speciesList[k], networkMap)
    ensures |children| == |births|
    ensures BirthSpecies(births) == Layout(Quotas(Totals(speciesList), population))
    ensures children == Children(births)
    ensures forall c :: 0 <= c < |children| ==> fresh(children[c])
    ensures Distinct(children)
    ensures forall c :: 0 <= c < |births| ==>
      && births[c].species < |speciesList|
      && Bred(pick, c, Views(speciesList)[births[c].species].members, NetworkFitness(networkMap), births[c])
  {
    ghost var qs := Quotas(Totals(speciesList), population);
    ghost var fit := NetworkFitness(networkMap);
    ghost var views := Views(speciesList);
    children := [];
    births := [];
    var k := 0;
    while k < |speciesList|
      invariant 0 <= k <= |speciesList|
      invariant BredUpTo(pick, views, fit, qs, k, births)
      invariant children == Children(births)
      invariant forall c :: 0 <= c < |children| ==> fresh(children[c])
      invariant Distinct(children)
    {
      var species := speciesList[k];
      var kids, bs := BreedStep(pick, networkMap, species, k, SpeciesBound(species.fitness, total, left), views, fit, qs, births, children, |births|);
      assert forall c :: 0 <= c < |children + kids| ==> fresh((children + kids)[c]);
      DistinctAppend(children, kids);
      children := children + kids;
      births := births + bs;
      k := k + 1;
    }
    assert qs[..k] == qs;
  }

  /** One species of the breeding loop: its children extend the handled prefix by one species. */
  method BreedStep(pick: (nat, nat) -> nat, networkMap: map<Genome, Network>, species: Species, k: nat, bound: real,
                   ghost views: seq<SpeciesView>, ghost fit: map<Genome, real>, ghost qs: seq<nat>, ghost births: seq<Birth>,
                   ghost children: seq<Genome>, c0: nat)
    returns (kids: seq<Genome>, bs: seq<Birth>)
    requires IndexSource(pick) && fit == NetworkFitness(networkMap) && c0 == |births|
    requires BredUpTo(pick, views, fit, qs, k, births) && k < |qs|
    requires qs[k] == Quota(bound) && views[k] == species.View()
    requires qs[k] > 0 ==> Breedable(species, networkMap)
    ensures |kids| == |bs|
    ensures BredUpTo(pick, views, fit, qs, k + 1, births + bs)
    ensures kids == Children(bs)
    ensures children == Children(births) ==> children + kids == Children(births + bs)
    ensures forall c :: 0 <= c < |kids| ==> fresh(kids[c])
    ensures Distinct(kids)
  {
    kids, bs := BreedSpecies(pick, networkMap, species, k, bound, c0);
    BredExtend(pick, views, fit, qs, k, births, bs);
    ChildrenAppend(births, bs);
  }

  /** The offspring loop of one species: while the child count is below
      `bound`, draw two members, order them by network fitness and cross them
      over. Its children are numbered from `c0` on. */
  method BreedSpecies(pick: (nat, nat) -> nat, networkMap: map<Genome, Network>, species: Species, k: nat, bound: real, c0: nat)
    returns (children: seq<Genome>, births: seq<Birth>)
    requires IndexSource(pick)
    requires Quota(bound) > 0 ==> Breedable(species, networkMap)
    ensures |children| == |births| == Quota(bound)
    ensures BirthSpecies(births) == Repeat(k, Quota(bound))
    ensures children == Children(births)
    ensures forall c :: 0 <= c < |children| ==> fresh(children[c])
    ensures Distinct(children)
    ensures forall c :: 0 <= c < |births| ==>
      Bred(pick, c0 + c, species.members, NetworkFitness(networkMap), births[c])
  {
    ghost var fit := NetworkFitness(networkMap);
    children := [];
    births := [];
    var i := 0;
    while (i as real) < bound
      invariant i <= Quota(bound)
      invariant |children| == |births| == i
      invariant BirthSpecies(births) == Repeat(k, i)
      invariant children == Children(births)
      invariant forall c :: 0 <= c < i ==> fresh(children[c])
      invariant Distinct(children)
      invariant forall c :: 0 <= c < i ==> Bred(pick, c0 + c, species.members, fit, births[c])
      decreases Quota(bound) - i
    {
      QuotaCounts(bound, i);
      var c := c0 + i;
      var parent1 := species.GetRandomGenome(pick(2 * c, |species.members|));
      var parent2 := species.GetRandomGenome(pick(2 * c + 1, |species.members|));
      var pairing := CrossoverOrder(parent1, networkMap[parent1].fitness, parent2, networkMap[parent2].fitness);
      var child := Crossover(pairing.dominant, pairing.recessive);
      assert BirthSpecies(births + [Birth(k, parent1, parent2, pairing, child)]) == BirthSpecies(births) + [k];
      ChildrenAppend(births, [Birth(k, parent1, parent2, pairing, child)]);
      children := children + [child];
      births := births + [Birth(k, parent1, parent2, pairing, child)];
      i := i + 1;
    }
    QuotaCounts(bound, i);
  }

  /** The elites' genomes followed by new children: the children are pairwise
      distinct, and so is the whole list when the elites' genomes are. */
  lemma ElitesThenChildren(elites: seq<Genome>, children: seq<Genome>)
    requires Distinct(children)
    requires forall j :: 0 <= j < |children| ==> children[j] !in elites
    ensures (elites + children)[|elites|..] == children
    ensures Distinct((elites + children)[|elites|..])
    ensures (elites + children)[..|elites|] == elites
    ensures Distinct(elites) ==> Distinct(elites + children)
  {
    assert (elites + children)[|elites|..] == children;
    assert (elites + children)[..|elites|] == elites;
    if Distinct(elites) {
      DistinctAppend(elites, children);
    }
  }

  class Manager {
    var genomes: seq<Genome>
    var nets: seq<Network>
    var networkMap: map<Genome, Network>
    var speciesMap: map<Genome, Species>
    var speciesList: seq<Species>
    var generation: int
    var population: int

    /**
     * Speciation. Every genome, in list order, joins the first species whose
     * mascot is within the compatibility threshold (see `Place`), or founds a new
     * species at the end of the list, and the dictionary maps it to that species;
     * then the empty species are removed and each survivor re-rolls its mascot
     * from its members.
     *
     * `distance` is the compatibility distance (with the controller's weights);
     * `pick(k, n)` is the random draw for the mascot of the species at position
     * `k` before pruning. `placed` and `views` are the species list and its
     * contents after classification, before pruning.
     */
    method AssignSpecies(distance: (Genome, Genome) -> real, pick: (nat, nat) -> nat)
      returns (ghost placed: seq<Species>, ghost views: seq<SpeciesView>)
      requires Distinct(genomes)
      requires Distinct(speciesList)
      requires IndexSource(pick)
      modifies this`speciesList, this`speciesMap, speciesList
      ensures views == PlaceAll(distance, old(Views(speciesList)), genomes, |genomes|)
      ensures |placed| == |views| && Injective(placed)
      ensures |old(speciesList)| <= |placed|
      ensures forall k :: 0 <= k < |old(speciesList)| ==> placed[k] == old(speciesList)[k]
      ensures forall k :: |old(speciesList)| <= k < |placed| ==> fresh(placed[k])
      ensures forall k :: 0 <= k < |views| ==> placed[k].View() == Redrawn(pick, views, 0)[k]
      ensures speciesList == Select(placed, Kept(views, 0))
      ensures speciesMap == DictOf(genomes, Homes(distance, old(Views(speciesList)), genomes, |genomes|), placed, |genomes|)
    {
      ghost var start := Views(speciesList);
      DistinctInjective(speciesList);
      ghost var homes, created;
      views, homes, created := ClassifyGenomes(distance);
      placed := speciesList;
      PruneSpecies(pick, views);
      SurvivorsAreKept(placed, views, 0);
    }

    /** The scan for the first species, in list order, whose mascot is within the
        compatibility threshold of `gen`; `j` is `|speciesList|` when there is none. */
    method FirstCompatible(distance: (Genome, Genome) -> real, gen: Genome) returns (found: bool, j: nat)
      ensures j == FirstMatch(distance, gen, Views(speciesList))
      ensures found <==> j < |speciesList|
    {
      found := false;
      j := 0;
      while j < |speciesList|
        invariant 0 <= j <= |speciesList|
        invariant !found
        invariant forall jj :: 0 <= jj < j ==> distance(gen, speciesList[jj].mascot) >= CompatibilityThreshold
      {
        if distance(gen, speciesList[j].mascot) < CompatibilityThreshold {
          found := true;
          FirstMatchUnique(distance, gen, Views(speciesList), j);
          return;
        }
        j := j + 1;
      }
      FirstMatchUnique(distance, gen, Views(speciesList), j);
    }

    /** The classification loop of speciation: each genome joins its first
        compatible species or founds a new one at the end of the list, and the
        dictionary maps it to that species. */
    method ClassifyGenomes(distance: (Genome, Genome) -> real)
      returns (ghost views: seq<SpeciesView>, ghost homes: seq<nat>, ghost created: seq<Species>)
      requires Injective(speciesList)
      modifies this`speciesList, this`speciesMap, speciesList
      ensures views == PlaceAll(distance, old(Views(speciesList)), genomes, |genomes|)
      ensures Tracks(views, speciesList)
      ensures speciesList == old(speciesList) + created
      ensures forall k :: 0 <= k < |created| ==> fresh(created[k])
      ensures homes == Homes(distance, old(Views(speciesList)), genomes, |genomes|)
      ensures forall t :: 0 <= t < |genomes| ==> homes[t] < |speciesList|
      ensures speciesMap == DictOf(genomes, homes, speciesList, |genomes|)
    {
      ghost var start := Views(speciesList);
      ghost var L0 := speciesList;
      created := [];
      var gs := genomes;
      speciesMap := map[];
      homes := [];
      views := start;
      var i := 0;
      while i < |gs|
        invariant 0 <= i <= |gs|
        invariant Classified(distance, start, gs, i, views, homes, speciesList, speciesMap)
        invariant speciesList == L0 + created
        invariant forall k :: 0 <= k < |created| ==> fresh(created[k])
      {
        ghost var added;
        views, homes, added := ClassifyStep(distance, start, gs, i, views, homes);
        AppendAssoc(L0, created, added);
        created := created + added;
        i := i + 1;
      }
    }

    /** The loop body of classification: classify `gs[i]` and extend the
        bookkeeping of the genomes classified so far by one. */
    method ClassifyStep(distance: (Genome, Genome) -> real, ghost start: seq<SpeciesView>, gs: seq<Genome>, i: nat,
                        ghost views: seq<SpeciesView>, ghost homes: seq<nat>)
      returns (ghost views': seq<SpeciesView>, ghost homes': seq<nat>, ghost added: seq<Species>)
      requires i < |gs| && Classified(distance, start, gs, i, views, homes, speciesList, speciesMap)
      modifies this`speciesList, this`speciesMap, speciesList
      ensures Classified(distance, start, gs, i + 1, views', homes', speciesList, speciesMap)
      ensures speciesList == old(speciesList) + added
      ensures forall k :: 0 <= k < |added| ==> fresh(added[k])
    {
      ghost var before := speciesList;
      PlaceAllStep(distance, start, gs, i);
      var j;
      j, added := ClassifyOne(distance, gs[i], views);
      DictOfStable(gs, homes, before, homes + [j], speciesList, i);
      views' := Place(distance, views, gs[i]);
      homes' := homes + [j];
    }

    /** One step of classification: `gen` joins the first species whose mascot is
        within the threshold, or founds a new one at the end of the list; `j` is
        that species' position, and the dictionary maps `gen` to it. `views` is
        the species contents before the step. */
    method ClassifyOne(distance: (Genome, Genome) -> real, gen: Genome, ghost views: seq<SpeciesView>)
      returns (j: nat, ghost added: seq<Species>)
      requires Tracks(views, speciesList)
      modifies this`speciesList, this`speciesMap, speciesList
      ensures Tracks(Place(distance, views, gen), speciesList)
      ensures speciesList == old(speciesList) + added
      ensures forall k :: 0 <= k < |added| ==> fresh(added[k])
      ensures j == FirstMatch(distance, gen, views) && j < |speciesList|
      ensures speciesMap == old(speciesMap)[gen := speciesList[j]]
    {
      assert Views(speciesList) == views;
      // The controller adds the genome inside the scan and breaks out of it;
      // scanning first and then adding does the same.
      var found;
      found, j := FirstCompatible(distance, gen);
      added := [];
      ghost var r := Place(distance, views, gen);
      FirstMatchSpec(distance, gen, views);
      PlaceSpec(distance, views, gen);
      if found {
        var species := speciesList[j];
        speciesMap := speciesMap[gen := species];
        species.AddMember(gen);
        forall m | 0 <= m < |speciesList|
          ensures speciesList[m].View() == r[m]
        {
          if m != j {
            assert speciesList[m] != species;
          }
        }
      } else {
        var species := new Species(gen);
        speciesMap := speciesMap[gen := species];
        InjectiveAppend(speciesList, species);
        speciesList := speciesList + [species];
        added := [species];
      }
    }

    /** The pruning loop of speciation: walking backwards, remove each empty
        species and re-roll each other species' mascot from its members, with
        `pick(k, n)` as the draw for the species at position `k`. */
    method PruneSpecies(pick: (nat, nat) -> nat, ghost views: seq<SpeciesView>)
      requires IndexSource(pick)
      requires Tracks(views, speciesList)
      modifies this`speciesList, speciesList
      ensures speciesList == Survivors(old(speciesList), views, 0)
      ensures forall k :: 0 <= k < |views| ==> old(speciesList)[k].View() == Redrawn(pick, views, 0)[k]
    {
      ghost var placed := speciesList;
      assert RedrawnFrom(pick, placed, views, |placed|);
      var n := |speciesList| - 1;
      while n >= 0
        invariant -1 <= n < |placed| && Injective(placed)
        invariant speciesList == placed[..n + 1] + Survivors(placed, views, n + 1)
        invariant RedrawnFrom(pick, placed, views, n + 1)
      {
        PruneStep(pick, placed, views, n, speciesList[n]);
        n := n - 1;
      }
    }

    /** One position of the pruning walk: the species at `n` is removed when
        empty and re-rolls its mascot otherwise. */
    method PruneStep(pick: (nat, nat) -> nat, ghost placed: seq<Species>, ghost views: seq<SpeciesView>, n: nat,
                     species: Species)
      requires IndexSource(pick) && Injective(placed) && n < |placed| == |views| && species == placed[n]
      requires speciesList == placed[..n + 1] + Survivors(placed, views, n + 1)
      requires RedrawnFrom(pick, placed, views, n + 1)
      modifies this`speciesList, species`mascot
      ensures speciesList == placed[..n] + Survivors(placed, views, n)
      ensures RedrawnFrom(pick, placed, views, n)
    {
      SurvivorsStep(placed, views, n);
      assert speciesList[n].View() == views[n];
      if |speciesList[n].members| == 0 {
        speciesList := speciesList[..n] + speciesList[n + 1..];
      } else {
        RedrawStep(pick, placed, views, n, species);
      }
    }

    /**
     * Fitness sharing, then the sort. Each network's fitness is divided by the
     * member count of its genome's species, and that shared value is added to
     * the species' total; then the networks are put in the order `sorted`, the
     * result of the network comparer (which is not part of this model).
     *
     * `owners` and `raw` are each network's species and fitness before sharing.
     */
    method SortNets(sorted: seq<Network>) returns (ghost owners: seq<Species>, ghost raw: seq<real>, ghost shared: seq<real>)
      requires Distinct(nets)
      requires forall i :: 0 <= i < |nets| ==>
        nets[i].genome in speciesMap && |speciesMap[nets[i].genome].members| > 0
      requires multiset(sorted) == multiset(nets)
      modifies this`nets, nets, Owners(nets, speciesMap)
      ensures nets == sorted
      ensures owners == Owners(old(nets), speciesMap) && raw == old(NetFitnesses(nets))
      ensures shared == old(SharedFitnesses(owners, raw))
      ensures forall i :: 0 <= i < |shared| ==>
        && old(nets)[i].fitness == shared[i]
        && owners[i].members == old(owners[i].members) && owners[i].mascot == old(owners[i].mascot)
        && owners[i].fitness == old(owners[i].fitness) + ShareOf(owners, shared, owners[i])
    {
      var ns := nets;
      DistinctInjective(ns);
      owners, raw, shared := ShareFitness(ns, speciesMap);
      nets := sorted;
    }


    /**
     * Reproduction. The generation counter advances; the genomes of the first
     * `Elites(population)` networks in the sorted order are copied; each
     * species, in list order, then gets `Quota(SpeciesBound(...))` children
     * bred from two randomly drawn members, the fitter one dominant; every new
     * genome, copied elites included, takes a mutation roll that selects its
     * band; the species are emptied, and the new genome list and its size
     * become the population. The children are new and pairwise distinct, so
     * the new list is duplicate-free whenever the copied genomes are.
     *
     * `pick(key, n)` is the random member draw (child `c` uses the keys `2c`
     * and `2c + 1`), `roll(j)` the mutation roll of the `j`-th new genome.
     * `births` records how each child was bred and `applied` the mutation
     * selected for each new genome.
     */
    method NextGen(pick: (nat, nat) -> nat, roll: nat -> real) returns (births: seq<Birth>, applied: seq<Mutation>)
      requires IndexSource(pick)
      requires Elites(population) <= |nets|
      requires speciesList != [] ==> Sum(Totals(speciesList)) != 0.0
      requires forall k :: 0 <= k < |speciesList| && Quotas(Totals(speciesList), population)[k] > 0 ==>
        Breedable(speciesList[k], networkMap)
      modifies this`generation, this`population, this`genomes, speciesList
      ensures generation == old(generation) + 1
      ensures |genomes| == Elites(old(population)) + |births| && population == |genomes|
      ensures forall i :: 0 <= i < Elites(old(population)) ==> genomes[i] == nets[i].genome
      ensures forall i :: Elites(old(population)) <= i < |genomes| ==> fresh(genomes[i])
      ensures Distinct(genomes[Elites(old(population))..])
      ensures Distinct(genomes[..Elites(old(population))]) ==> Distinct(genomes)
      ensures genomes[Elites(old(population))..] == Children(births)
      ensures BirthSpecies(births) == Layout(Quotas(old(Totals(speciesList)), old(population)))
      ensures forall c :: 0 <= c < |births| ==>
        && births[c].species < |speciesList|
        && Bred(pick, c, old(Views(speciesList))[births[c].species].members, old(NetworkFitness(networkMap)), births[c])
      ensures |applied| == |genomes| && forall j :: 0 <= j < |genomes| ==> applied[j] == Band(roll(j))
      ensures forall k :: 0 <= k < |speciesList| ==>
        speciesList[k].members == [] && speciesList[k].fitness == 0.0 && speciesList[k].mascot == old(speciesList[k].mascot)
    {
      var nextGenomes;
      nextGenomes, births, applied := Offspring(pick, roll);
      Install(nextGenomes);
    }

    /** The end of a generation step: the counter advances, the species are
        emptied, and `next` becomes the genome list and its length the population. */
    method Install(next: seq<Genome>)
      modifies this`generation, this`population, this`genomes, speciesList
      ensures generation == old(generation) + 1
      ensures genomes == next && population == |next|
      ensures forall k :: 0 <= k < |speciesList| ==>
        speciesList[k].members == [] && speciesList[k].fitness == 0.0 && speciesList[k].mascot == old(speciesList[k].mascot)
    {
      generation := generation + 1;
      ResetSpecies();
      population := |next|;
      genomes := next;
    }

    /** The new genome list of `NextGen`: the elites' genomes, then each
        species' children in list order, with the mutation selected for each. */
    method Offspring(pick: (nat, nat) -> nat, roll: nat -> real)
      returns (next: seq<Genome>, births: seq<Birth>, applied: seq<Mutation>)
      requires IndexSource(pick)
      requires Elites(population) <= |nets|
      requires speciesList != [] ==> Sum(Totals(speciesList)) != 0.0
      requires forall k :: 0 <= k < |speciesList| && Quotas(Totals(speciesList), population)[k] > 0 ==>
        Breedable(speciesList[k], networkMap)
      ensures |next| == Elites(population) + |births|
      ensures forall i :: 0 <= i < Elites(population) ==> next[i] == nets[i].genome
      ensures forall i :: Elites(population) <= i < |next| ==> fresh(next[i])
      ensures Distinct(next[Elites(population)..])
      ensures Distinct(next[..Elites(population)]) ==> Distinct(next)
      ensures next[Elites(population)..] == Children(births)
      ensures BirthSpecies(births) == Layout(Quotas(Totals(speciesList), population))
      ensures forall c :: 0 <= c < |births| ==>
        && births[c].species < |speciesList|
        && Bred(pick, c, Views(speciesList)[births[c].species].members, NetworkFitness(networkMap), births[c])
      ensures |applied| == |next| && forall j :: 0 <= j < |next| ==> applied[j] == Band(roll(j))
    {
      next, births := NewGenomes(pick);
      applied := ChooseMutations(next, roll);
    }

    /** The elites' genomes followed by each species' children in list order. */
    method NewGenomes(pick: (nat, nat) -> nat) returns (next: seq<Genome>, births: seq<Birth>)
      requires IndexSource(pick)
      requires Elites(population) <= |nets|
      requires speciesList != [] ==> Sum(Totals(speciesList)) != 0.0
      requires forall k :: 0 <= k < |speciesList| && Quotas(Totals(speciesList), population)[k] > 0 ==>
        Breedable(speciesList[k], networkMap)
      ensures |next| == Elites(population) + |births|
      ensures forall i :: 0 <= i < Elites(population) ==> next[i] == nets[i].genome
      ensures forall i :: Elites(population) <= i < |next| ==> fresh(next[i])
      ensures Distinct(next[Elites(population)..])
      ensures Distinct(next[..Elites(population)]) ==> Distinct(next)
      ensures next[Elites(population)..] == Children(births)
      ensures BirthSpecies(births) == Layout(Quotas(Totals(speciesList), population))
      ensures forall c :: 0 <= c < |births| ==>
        && births[c].species < |speciesList|
        && Bred(pick, c, Views(speciesList)[births[c].species].members, NetworkFitness(networkMap), births[c])
    {
      var totalFitness := TotalFitness();
      var left := LeftPopulation(population);
      next := CopyElites(Elites(population));
      var children;
      children, births := BreedAll(pick, speciesList, networkMap, population, totalFitness, left);
      ElitesThenChildren(next, children);
      next := next + children;
    }

    /** The sum of the species' fitness totals, in list order. */
    method TotalFitness() returns (total: real)
      ensures total == Sum(Totals(speciesList))
    {
      ghost var ts := Totals(speciesList);
      total := 0.0;
      var k := 0;
      while k < |speciesList|
        invariant 0 <= k <= |speciesList|
        invariant total == Sum(ts[..k])
      {
        assert ts[..k + 1][..k] == ts[..k];
        total := total + speciesList[k].fitness;
        k := k + 1;
      }
      assert ts[..k] == ts;
    }

    /** The genomes of the first `e` networks, in order. */
    method CopyElites(e: nat) returns (next: seq<Genome>)
      requires e <= |nets|
      ensures |next| == e
      ensures forall i :: 0 <= i < e ==> next[i] == nets[i].genome
    {
      next := [];
      var i := 0;
      while i < e
        invariant 0 <= i <= e
        invariant |next| == i
        invariant forall j :: 0 <= j < i ==> next[j] == nets[j].genome
      {
        next := next + [nets[i].genome];
        i := i + 1;
      }
    }

    /** The mutation pass: the roll of each new genome selects its band. */
    method ChooseMutations(next: seq<Genome>, roll: nat -> real) returns (applied: seq<Mutation>)
      ensures |applied| == |next|
      ensures forall j :: 0 <= j < |next| ==> applied[j] == Band(roll(j))
    {
      applied := [];
      var j := 0;
      while j < |next|
        invariant 0 <= j <= |next|
        invariant |applied| == j
        invariant forall i :: 0 <= i < j ==> applied[i] == Band(roll(i))
      {
        var r := roll(j);
        var m;
        if r < WeightMutationChance {
          m := MutateWeights(RandomWeightChance);
        } else if r < WeightMutationChance + AddNodeChance {
          m := AddNode;
        } else if r < WeightMutationChance + AddNodeChance + AddConnectionChance {
          m := AddConnection;
        } else {
          m := NoMutation;
        }
        applied := applied + [m];
        j := j + 1;
      }
    }

    /** Empties every species for the next speciation pass, keeping its mascot. */
    method ResetSpecies()
      modifies speciesList
      ensures forall k :: 0 <= k < |speciesList| ==>
        speciesList[k].members == [] && speciesList[k].fitness == 0.0 && speciesList[k].mascot == old(speciesList[k].mascot)
    {
      var k := 0;
      while k < |speciesList|
        invariant 0 <= k <= |speciesList|
        invariant forall j :: 0 <= j < k ==> speciesList[j].members == [] && speciesList[j].fitness == 0.0
        invariant forall j :: 0 <= j < |speciesList| ==> speciesList[j].mascot == old(speciesList[j].mascot)
      {
        speciesList[k].Reset();
        k := k + 1;
      }
    }
  }
}
