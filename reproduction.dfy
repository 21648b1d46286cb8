/**
 * The arithmetic and the choices of one reproduction step: how many elites are
 * copied, how many children each species gets, which parent dominates a
 * crossover, and which mutation a roll selects.
 *
 * Rates and fitness values are single-precision floats in the controller; they
 * are reals here, and `(int)` casts are truncation toward zero.
 */
module Reproduction {
  import opened Seqs
  import opened Genetics

  const SurvivalChance: real := 0.1
  const WeightMutationChance: real := 0.8
  const RandomWeightChance: real := 0.1
  const AddNodeChance: real := 0.03
  const AddConnectionChance: real := 0.05

  /** The `(int)` cast: truncation toward zero. */
  function Trunc(x: real): (r: int)
    ensures 0.0 <= x ==> 0 <= r && r as real <= x < r as real + 1.0
    ensures x < 0.0 ==> r <= 0 && r as real - 1.0 < x <= r as real
  {
    if x >= 0.0 then x.Floor else -((-x).Floor)
  }

  /** How many times `for (int i = 0; i < bound; i++)` runs for the real `bound`:
      the number of naturals strictly below `bound`. */
  function Quota(bound: real): (q: nat)
    ensures bound <= q as real
    ensures q > 0 ==> (q - 1) as real < bound
  {
    if bound <= 0.0 then 0
    else if bound.Floor as real == bound then bound.Floor
    else bound.Floor + 1
  }

  /** `Quota` counts exactly the naturals below the bound. */
  lemma QuotaCounts(bound: real, i: nat)
    ensures i < Quota(bound) <==> (i as real) < bound
  {
    var q := Quota(bound);
    if i < q {
      assert (i as real) <= (q - 1) as real;
    } else {
      assert (q as real) <= (i as real);
    }
  }

  /** Number of elites: the loop bound is `(int)(population * survivalChance)`. */
  function Elites(population: int): (e: nat)
    ensures e == if Trunc(population as real * SurvivalChance) > 0 then Trunc(population as real * SurvivalChance) else 0
  {
    var t := Trunc(population as real * SurvivalChance);
    if t > 0 then t else 0
  }

  /** With a survival rate of 0.1 the elite count is the population divided by 10, rounded down. */
  lemma ElitesIsTenth(population: int)
    ensures Elites(population) == if population >= 0 then population / 10 else 0
  {
    var x := population as real * SurvivalChance;
    if population >= 0 {
      var q, r := population / 10, population % 10;
      assert population == 10 * q + r;
      assert x == q as real + r as real / 10.0;
      assert Trunc(x) == q;
    } else {
      assert x < 0.0;
    }
  }

  /** The slots left after the elites: `population * (1 - survivalChance)`, not rounded. */
  function LeftPopulation(population: int): real
  {
    population as real * (1.0 - SurvivalChance)
  }

  /** The offspring loop bound of one species: `(int)fitness / totalFitness * leftPopulation`.
      Only the species fitness is truncated. */
  function SpeciesBound(fitness: real, total: real, left: real): real
    requires total != 0.0
  {
    (Trunc(fitness) as real) / total * left
  }

  /** A species whose fitness truncates to 0 gets no children. */
  lemma NoWholeFitnessNoChildren(fitness: real, total: real, left: real)
    requires total != 0.0
    requires Trunc(fitness) == 0
    ensures Quota(SpeciesBound(fitness, total, left)) == 0
  {
  }

  /** The children each species gets, in species order, from the species' fitness totals. */
  function Quotas(fitnesses: seq<real>, population: int): (qs: seq<nat>)
    requires fitnesses != [] ==> Sum(fitnesses) != 0.0
    ensures |qs| == |fitnesses|
    ensures forall k :: 0 <= k < |fitnesses| ==>
      qs[k] == Quota(SpeciesBound(fitnesses[k], Sum(fitnesses), LeftPopulation(population)))
  {
    seq(|fitnesses|, k requires 0 <= k < |fitnesses| =>
      Quota(SpeciesBound(fitnesses[k], Sum(fitnesses), LeftPopulation(population))))
  }

  /** The loop bound counts every natural below a fractional bound, so the
      children can outnumber the slots: with 11 genomes and two species of
      fitness 1 and 2, the bounds are 3.3 and 6.6, the species get 4 and 7
      children, and with the one elite the next generation has 12 genomes. */
  lemma QuotasCanOvershoot()
    ensures Elites(11) + SumNat(Quotas([1.0, 2.0], 11)) == 12
  {
    var fs := [1.0, 2.0];
    assert Sum(fs) == 3.0 by {
      assert fs[..1] == [1.0] && fs[..1][..0] == [];
    }
    assert LeftPopulation(11) == 9.9;
    assert SpeciesBound(1.0, 3.0, 9.9) == 3.3;
    assert SpeciesBound(2.0, 3.0, 9.9) == 6.6;
    assert Quota(3.3) == 4 && Quota(6.6) == 7;
    var qs := Quotas(fs, 11);
    assert qs == [4, 7];
    assert SumNat(qs) == 11 by {
      assert qs[..1] == [4] && qs[..1][..0] == [];
      assert SumNat(qs[..1]) == 4;
      assert SumNat(qs) == SumNat(qs[..1]) + qs[1];
    }
    assert Elites(11) == 1;
  }

  /** `n` copies of `x`. */
  function Repeat(x: nat, n: nat): (r: seq<nat>)
    ensures |r| == n
    ensures forall i :: 0 <= i < n ==> r[i] == x
  {
    if n == 0 then [] else Repeat(x, n - 1) + [x]
  }

  lemma {:induction false} RepeatCount(x: nat, n: nat, k: nat)
    ensures multiset(Repeat(x, n))[k] == if k == x then n else 0
  {
    if n > 0 {
      RepeatCount(x, n - 1, k);
    }
  }

  /** The species index of every child, in the order the children are produced:
      all of species 0's children first, then species 1's, and so on. */
  function Layout(qs: seq<nat>): (ls: seq<nat>)
    ensures |ls| == SumNat(qs)
  {
    if qs == [] then []
    else
      var n := |qs| - 1;
      Layout(qs[..n]) + Repeat(n, qs[n])
  }

  /** Every child belongs to one of the species, and the children come species by species. */
  lemma {:induction false} LayoutOrdered(qs: seq<nat>)
    ensures forall c :: 0 <= c < |Layout(qs)| ==> Layout(qs)[c] < |qs|
    ensures forall c, c' :: 0 <= c <= c' < |Layout(qs)| ==> Layout(qs)[c] <= Layout(qs)[c']
    decreases |qs|
  {
    if qs != [] {
      var n := |qs| - 1;
      LayoutOrdered(qs[..n]);
      var a, b := Layout(qs[..n]), Repeat(n, qs[n]);
      assert Layout(qs) == a + b;
      forall c | 0 <= c < |a + b|
        ensures (a + b)[c] < |qs|
      {
        if c < |a| {
          assert (a + b)[c] == a[c];
        }
      }
    }
  }

  /** Species `k` appears exactly `qs[k]` times in the layout. */
  lemma {:induction false} LayoutCount(qs: seq<nat>, k: nat)
    requires k < |qs|
    ensures multiset(Layout(qs))[k] == qs[k]
    decreases |qs|
  {
    var n := |qs| - 1;
    RepeatCount(n, qs[n], k);
    LayoutOrdered(qs[..n]);
    if k < n {
      LayoutCount(qs[..n], k);
    } else {
      // every earlier child belongs to a species before `k`
      assert k !in Layout(qs[..n]);
      assert k !in multiset(Layout(qs[..n]));
    }
  }

  /** The parents of one crossover, the dominant one first. */
  datatype Pairing = Pairing(dominant: Genome, recessive: Genome)

  /** Parent 1 dominates only when its network fitness is strictly greater; on a tie
      or less, parent 2 dominates. */
  function CrossoverOrder(parent1: Genome, fitness1: real, parent2: Genome, fitness2: real): (r: Pairing)
    ensures fitness1 > fitness2 ==> r == Pairing(parent1, parent2)
    ensures fitness1 <= fitness2 ==> r == Pairing(parent2, parent1)
  {
    if fitness1 > fitness2 then Pairing(parent1, parent2) else Pairing(parent2, parent1)
  }

  /** With different fitnesses the fitter parent dominates whichever was drawn first;
      on a tie the second draw dominates, so there the draw order matters. */
  lemma FitterDominates(p: Genome, fp: real, q: Genome, fq: real)
    ensures fp != fq ==> CrossoverOrder(p, fp, q, fq) == CrossoverOrder(q, fq, p, fp)
    ensures fp > fq ==> CrossoverOrder(p, fp, q, fq).dominant == p
    ensures fp == fq ==> CrossoverOrder(p, fp, q, fq).dominant == q && CrossoverOrder(q, fq, p, fp).dominant == p
  {
  }

  /** One child of a species and what it was bred from. */
  datatype Birth = Birth(species: nat, parent1: Genome, parent2: Genome, pairing: Pairing, child: Genome)

  /** Child `c` (counted over the whole generation) of a species with members
      `members` was bred as the controller breeds it: the two parents are the
      members at the draws `pick(2c, n)` and `pick(2c + 1, n)` for `n` members,
      both have an evaluated fitness in `fit`, and they were ordered by
      `CrossoverOrder`. */
  ghost predicate Bred(pick: (nat, nat) -> nat, c: nat, members: seq<Genome>, fit: map<Genome, real>, b: Birth)
    requires IndexSource(pick)
  {
    && |members| > 0
    && b.parent1 == members[pick(2 * c, |members|)]
    && b.parent2 == members[pick(2 * c + 1, |members|)]
    && b.parent1 in fit && b.parent2 in fit
    && b.pairing == CrossoverOrder(b.parent1, fit[b.parent1], b.parent2, fit[b.parent2])
  }

  /** The species index of each birth, in order. */
  function BirthSpecies(births: seq<Birth>): (ks: seq<nat>)
    ensures |ks| == |births|
    ensures forall c :: 0 <= c < |births| ==> ks[c] == births[c].species
  {
    seq(|births|, c requires 0 <= c < |births| => births[c].species)
  }

  /** The child of each birth, in order. */
  function Children(births: seq<Birth>): (cs: seq<Genome>)
    ensures |cs| == |births|
    ensures forall c :: 0 <= c < |births| ==> cs[c] == births[c].child
  {
    seq(|births|, c requires 0 <= c < |births| => births[c].child)
  }

  /** The children of a longer log are those of its parts, in order. */
  lemma ChildrenAppend(a: seq<Birth>, b: seq<Birth>)
    ensures Children(a + b) == Children(a) + Children(b)
  {
  }

  /** The four mutually exclusive outcomes of the mutation pass. */
  datatype Mutation = MutateWeights(randomWeightChance: real) | AddNode | AddConnection | NoMutation

  /** The outcome a roll selects: bands checked in order weight, add-node, add-connection. */
  function Band(roll: real): (m: Mutation)
    ensures m == MutateWeights(RandomWeightChance) <==> roll < WeightMutationChance
    ensures m == AddNode <==>
      WeightMutationChance <= roll < WeightMutationChance + AddNodeChance
    ensures m == AddConnection <==>
      WeightMutationChance + AddNodeChance <= roll < WeightMutationChance + AddNodeChance + AddConnectionChance
    ensures m == NoMutation <==> WeightMutationChance + AddNodeChance + AddConnectionChance <= roll
  {
    if roll < WeightMutationChance then MutateWeights(RandomWeightChance)
    else if roll < WeightMutationChance + AddNodeChance then AddNode
    else if roll < WeightMutationChance + AddNodeChance + AddConnectionChance then AddConnection
    else NoMutation
  }
}
