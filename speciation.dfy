/**
 * Species and the first-match speciation rule.
 *
 * `Species` is the controller's nested container class: a mascot (the genome
 * the species is compared against), an insertion-ordered member list and a
 * shared-fitness accumulator, all updated in place.
 *
 * The functions below give the value-level meaning of one speciation pass:
 * `Place` classifies one genome against a list of species snapshots,
 * `PlaceAll` classifies a whole genome list in order, and `Kept` lists the
 * species that survive the pruning of empty ones.
 */
module Speciation {
  import opened Seqs
  import opened Genetics

  /** Compatibility distance strictly below this joins a species. */
  const CompatibilityThreshold: real := 3.0

  /** A snapshot of one species' fields. */
  datatype SpeciesView = SpeciesView(mascot: Genome, members: seq<Genome>, fitness: real)

  class Species {
    var mascot: Genome
    var members: seq<Genome>
    var fitness: real

    function View(): SpeciesView
      reads this
    {
      SpeciesView(mascot, members, fitness)
    }

    /** A new species has its founder as sole member and as mascot, and no fitness yet. */
    constructor (firstMember: Genome)
      ensures mascot == firstMember && members == [firstMember] && fitness == 0.0
    {
      members := [firstMember];
      mascot := firstMember;
      fitness := 0.0;
    }

    /** Draws a member (with replacement); `index` is the random draw below the member count. */
    method GetRandomGenome(index: nat) returns (g: Genome)
      requires index < |members|
      ensures g in members
      ensures g == members[index]
    {
      g := members[index];
    }

    /** Re-rolls the mascot from the current members; nothing else changes. */
    method RandomizeMascot(index: nat)
      requires index < |members|
      modifies this`mascot
      ensures mascot in members
      ensures mascot == members[index]
    {
      mascot := members[index];
    }

    /** Appends without any duplicate check. */
    method AddMember(genome: Genome)
      modifies this`members
      ensures members == old(members) + [genome]
    {
      members := members + [genome];
    }

    method AddFitness(fit: real)
      modifies this`fitness
      ensures fitness == old(fitness) + fit
    {
      fitness := fitness + fit;
    }

    /** Empties the species for the next speciation pass; the mascot is kept. */
    method Reset()
      modifies this`members, this`fitness
      ensures members == [] && fitness == 0.0
    {
      members := [];
      fitness := 0.0;
    }
  }

  /** Snapshots of a list of species, position by position. */
  function Views(list: seq<Species>): (vs: seq<SpeciesView>)
    reads list
    ensures |vs| == |list|
    ensures forall k :: 0 <= k < |list| ==> vs[k] == list[k].View()
  {
    seq(|list|, k reads list requires 0 <= k < |list| => list[k].View())
  }

  /** Position of the first species whose mascot is within the threshold of `g`,
      or `|views|` when there is none: the search is first-match, not best-match. */
  function FirstMatch(distance: (Genome, Genome) -> real, g: Genome, views: seq<SpeciesView>): nat
  {
    FirstMatchFrom(distance, g, views, 0)
  }

  /** The scan of `FirstMatch`, from position `lo` on. */
  function FirstMatchFrom(distance: (Genome, Genome) -> real, g: Genome, views: seq<SpeciesView>, lo: nat): nat
    requires lo <= |views|
    decreases |views| - lo
  {
    if lo == |views| then lo
    else if distance(g, views[lo].mascot) < CompatibilityThreshold then lo
    else FirstMatchFrom(distance, g, views, lo + 1)
  }

  lemma {:induction false} FirstMatchFromSpec(distance: (Genome, Genome) -> real, g: Genome, views: seq<SpeciesView>, lo: nat)
    requires lo <= |views|
    ensures var k := FirstMatchFrom(distance, g, views, lo);
      && lo <= k <= |views|
      && (k < |views| ==> distance(g, views[k].mascot) < CompatibilityThreshold)
      && forall j :: lo <= j < k ==> distance(g, views[j].mascot) >= CompatibilityThreshold
    decreases |views| - lo
  {
    if lo < |views| && distance(g, views[lo].mascot) >= CompatibilityThreshold {
      FirstMatchFromSpec(distance, g, views, lo + 1);
    }
  }

  /** The first match is within the threshold (when there is one), and no
      species before it is. */
  lemma FirstMatchSpec(distance: (Genome, Genome) -> real, g: Genome, views: seq<SpeciesView>)
    ensures FirstMatch(distance, g, views) <= |views|
    ensures FirstMatch(distance, g, views) < |views| ==>
      distance(g, views[FirstMatch(distance, g, views)].mascot) < CompatibilityThreshold
    ensures forall j :: 0 <= j < FirstMatch(distance, g, views) ==> distance(g, views[j].mascot) >= CompatibilityThreshold
  {
    FirstMatchFromSpec(distance, g, views, 0);
  }

  lemma {:induction false} FirstMatchFromUnique(distance: (Genome, Genome) -> real, g: Genome, views: seq<SpeciesView>,
                                                lo: nat, k: nat)
    requires lo <= k <= |views|
    requires k < |views| ==> distance(g, views[k].mascot) < CompatibilityThreshold
    requires forall j :: lo <= j < k ==> distance(g, views[j].mascot) >= CompatibilityThreshold
    ensures FirstMatchFrom(distance, g, views, lo) == k
    decreases k - lo
  {
    if lo < k {
      FirstMatchFromUnique(distance, g, views, lo + 1, k);
    }
  }

  /** Conversely, a position before which nothing matches and at which the
      species matches (or the end of the list) is the first match. */
  lemma FirstMatchUnique(distance: (Genome, Genome) -> real, g: Genome, views: seq<SpeciesView>, k: nat)
    requires k <= |views|
    requires k < |views| ==> distance(g, views[k].mascot) < CompatibilityThreshold
    requires forall j :: 0 <= j < k ==> distance(g, views[j].mascot) >= CompatibilityThreshold
    ensures FirstMatch(distance, g, views) == k
  {
    FirstMatchFromUnique(distance, g, views, 0, k);
  }

  /** Classifies one genome against the species `views`. */
  function Place(distance: (Genome, Genome) -> real, views: seq<SpeciesView>, g: Genome): seq<SpeciesView>
  {
    var k := FirstMatch(distance, g, views);
    if k < |views| then views[k := views[k].(members := views[k].members + [g])]
    else views + [SpeciesView(g, [g], 0.0)]
  }

  /** The genome is appended at the end of the members of the first matching
      species; when none matches, a new species with `g` as sole member and
      mascot is appended. Every other species is left as it was. */
  lemma PlaceSpec(distance: (Genome, Genome) -> real, views: seq<SpeciesView>, g: Genome)
    ensures FirstMatch(distance, g, views) < |views| ==>
      && |Place(distance, views, g)| == |views|
      && var k := FirstMatch(distance, g, views);
         Place(distance, views, g)[k] == views[k].(members := views[k].members + [g])
    ensures FirstMatch(distance, g, views) == |views| ==>
      && |Place(distance, views, g)| == |views| + 1
      && Place(distance, views, g)[|views|] == SpeciesView(g, [g], 0.0)
    ensures forall j :: 0 <= j < |views| && j != FirstMatch(distance, g, views) ==> Place(distance, views, g)[j] == views[j]
  {
    FirstMatchSpec(distance, g, views);
  }

  /** Classifies the first `n` genomes of `gs` in list order, starting from the
      species `views`. */
  function PlaceAll(distance: (Genome, Genome) -> real, views: seq<SpeciesView>, gs: seq<Genome>, n: nat): seq<SpeciesView>
    requires n <= |gs|
  {
    if n == 0 then views
    else Place(distance, PlaceAll(distance, views, gs, n - 1), gs[n - 1])
  }

  /** The position of the species that `gs[t]` joins (or founds): its first
      match among the species left by classifying the genomes before it. */
  function Home(distance: (Genome, Genome) -> real, views: seq<SpeciesView>, gs: seq<Genome>, t: nat): nat
    requires t < |gs|
  {
    FirstMatch(distance, gs[t], PlaceAll(distance, views, gs, t))
  }

  /** One more genome: classify it against the species left by the ones before,
      and record the position it joins. */
  lemma PlaceAllStep(distance: (Genome, Genome) -> real, views: seq<SpeciesView>, gs: seq<Genome>, n: nat)
    requires n < |gs|
    ensures PlaceAll(distance, views, gs, n + 1) == Place(distance, PlaceAll(distance, views, gs, n), gs[n])
    ensures Homes(distance, views, gs, n + 1)
         == Homes(distance, views, gs, n) + [FirstMatch(distance, gs[n], PlaceAll(distance, views, gs, n))]
  {
  }

  /** The homes of the first `n` genomes, in order. */
  function Homes(distance: (Genome, Genome) -> real, views: seq<SpeciesView>, gs: seq<Genome>, n: nat): (hs: seq<nat>)
    requires n <= |gs|
    ensures |hs| == n
  {
    if n == 0 then [] else Homes(distance, views, gs, n - 1) + [Home(distance, views, gs, n - 1)]
  }

  /** `Homes` lists `Home` position by position. */
  lemma {:induction false} HomesAreHome(distance: (Genome, Genome) -> real, views: seq<SpeciesView>, gs: seq<Genome>, n: nat)
    requires n <= |gs|
    ensures forall t :: 0 <= t < n ==> Homes(distance, views, gs, n)[t] == Home(distance, views, gs, t)
  {
    if n > 0 {
      HomesAreHome(distance, views, gs, n - 1);
    }
  }

  /** Classification never removes or reorders species, never changes a mascot
      or a fitness, and only ever appends members; founded species start with
      fitness 0 and have one of the genomes as mascot. */
  lemma {:induction false} PlaceAllExtends(distance: (Genome, Genome) -> real, views: seq<SpeciesView>, gs: seq<Genome>, n: nat)
    requires n <= |gs|
    ensures var r := PlaceAll(distance, views, gs, n);
      && |views| <= |r| <= |views| + n
      && (forall k :: 0 <= k < |views| ==>
            r[k].mascot == views[k].mascot && r[k].fitness == views[k].fitness
            && views[k].members <= r[k].members)
      && (forall k :: |views| <= k < |r| ==> r[k].fitness == 0.0 && r[k].mascot in gs)
  {
    if n > 0 {
      PlaceAllExtends(distance, views, gs, n - 1);
      var w := PlaceAll(distance, views, gs, n - 1);
      var r := Place(distance, w, gs[n - 1]);
      PlaceSpec(distance, w, gs[n - 1]);
      forall k | 0 <= k < |views|
        ensures r[k].mascot == views[k].mascot && r[k].fitness == views[k].fitness
        ensures views[k].members <= r[k].members
      {
        assert w[k].members <= r[k].members;
      }
      forall k | |views| <= k < |r|
        ensures r[k].fitness == 0.0 && r[k].mascot in gs
      {
        if k < |w| {
          assert r[k].mascot == w[k].mascot && r[k].fitness == w[k].fitness;
        } else {
          assert r[k].mascot == gs[n - 1];
        }
      }
    }
  }

  /** Every genome ends up among the members of its home species, and stays there
      while the genomes after it are classified. */
  lemma {:induction false} MemberOfHome(distance: (Genome, Genome) -> real, views: seq<SpeciesView>, gs: seq<Genome>, n: nat, t: nat)
    requires t < n <= |gs|
    ensures Home(distance, views, gs, t) < |PlaceAll(distance, views, gs, n)|
    ensures gs[t] in PlaceAll(distance, views, gs, n)[Home(distance, views, gs, t)].members
  {
    var w := PlaceAll(distance, views, gs, n - 1);
    var k := Home(distance, views, gs, t);
    FirstMatchSpec(distance, gs[n - 1], w);
    PlaceSpec(distance, w, gs[n - 1]);
    if t < n - 1 {
      MemberOfHome(distance, views, gs, n - 1, t);
      var r := Place(distance, w, gs[n - 1]);
      assert w[k].members <= r[k].members;
    }
  }

  /** Members of the classified species come from the starting members or from
      the genomes classified so far. */
  lemma {:induction false} MembersComeFrom(distance: (Genome, Genome) -> real, views: seq<SpeciesView>, gs: seq<Genome>, n: nat, k: nat, x: Genome)
    requires n <= |gs|
    requires k < |PlaceAll(distance, views, gs, n)|
    requires x in PlaceAll(distance, views, gs, n)[k].members
    ensures (k < |views| && x in views[k].members) || x in gs[..n]
  {
    if n > 0 {
      var w := PlaceAll(distance, views, gs, n - 1);
      PlaceSpec(distance, w, gs[n - 1]);
      if x != gs[n - 1] {
        assert k < |w| && x in w[k].members;
        MembersComeFrom(distance, views, gs, n - 1, k, x);
        assert gs[..n - 1] <= gs[..n];
      } else {
        assert gs[..n][n - 1] == x;
      }
    }
  }

  /** When the genomes are pairwise distinct and none is already a member, each
      classified genome is a member of exactly one species: its home. */
  lemma {:induction false} ExactlyOneSpecies(distance: (Genome, Genome) -> real, views: seq<SpeciesView>, gs: seq<Genome>, n: nat, t: nat, k: nat)
    requires Distinct(gs)
    requires forall j, x :: 0 <= j < |views| && x in views[j].members ==> x !in gs
    requires t < n <= |gs| && k < |PlaceAll(distance, views, gs, n)|
    ensures gs[t] in PlaceAll(distance, views, gs, n)[k].members <==> k == Home(distance, views, gs, t)
  {
    MemberOfHome(distance, views, gs, n, t);
    var g := gs[n - 1];
    var w := PlaceAll(distance, views, gs, n - 1);
    var r := PlaceAll(distance, views, gs, n);
    var home := Home(distance, views, gs, t);
    PlaceSpec(distance, w, g);
    if gs[t] in r[k].members && k != home {
      if t == n - 1 {
        // g was not in any species before it was placed
        assert g !in gs[..n - 1] by {
          forall i | 0 <= i < n - 1
            ensures gs[i] != g
          {
          }
        }
        assert g in gs;
        assert k < |w| && g in w[k].members;
        MembersComeFrom(distance, views, gs, n - 1, k, g);
        assert false;
      } else {
        assert gs[t] != g;
        assert k < |w| && gs[t] in w[k].members;
        ExactlyOneSpecies(distance, views, gs, n - 1, t, k);
        assert false;
      }
    }
  }

  /** Positions of the non-empty species at or after `lo`, in increasing order:
      the species that survive pruning. */
  function Kept(views: seq<SpeciesView>, lo: nat): (ks: seq<nat>)
    requires lo <= |views|
    ensures forall j :: 0 <= j < |ks| ==> lo <= ks[j] < |views| && views[ks[j]].members != []
    ensures forall j, j' :: 0 <= j < j' < |ks| ==> ks[j] < ks[j']
    decreases |views| - lo
  {
    if lo == |views| then []
    else if views[lo].members == [] then Kept(views, lo + 1)
    else [lo] + Kept(views, lo + 1)
  }

  /** Every non-empty species at or after `lo` is kept. */
  lemma {:induction false} KeptComplete(views: seq<SpeciesView>, lo: nat, k: nat)
    requires lo <= k < |views| && views[k].members != []
    ensures k in Kept(views, lo)
    decreases |views| - lo
  {
    if lo < k {
      KeptComplete(views, lo + 1, k);
    }
  }

  /** The species contents after the pruning walk has passed position `from`:
      each non-empty species at or after `from` has its mascot re-drawn from its
      members, the member at `pick(k, n)` for the species at position `k` with
      `n` members; everything else is as classified. */
  ghost function Redrawn(pick: (nat, nat) -> nat, views: seq<SpeciesView>, from: nat): (r: seq<SpeciesView>)
    requires IndexSource(pick)
    ensures |r| == |views|
    ensures forall k :: 0 <= k < |views| ==> r[k].members == views[k].members && r[k].fitness == views[k].fitness
    ensures forall k :: from <= k < |views| && views[k].members != [] ==> r[k].mascot in views[k].members
    ensures forall k :: 0 <= k < |views| && (k < from || views[k].members == []) ==> r[k] == views[k]
  {
    seq(|views|, k requires 0 <= k < |views| =>
      if k >= from && views[k].members != []
      then views[k].(mascot := views[k].members[pick(k, |views[k].members|)])
      else views[k])
  }

  /** The species of `placed` whose snapshot in `views` is non-empty, from position
      `lo` on, in order: what the backward pruning walk leaves behind. */
  function Survivors<T>(placed: seq<T>, views: seq<SpeciesView>, lo: nat): (r: seq<T>)
    requires |placed| == |views| && lo <= |views|
    ensures |r| <= |views| - lo
    decreases |views| - lo
  {
    if lo == |views| then []
    else if views[lo].members == [] then Survivors(placed, views, lo + 1)
    else [placed[lo]] + Survivors(placed, views, lo + 1)
  }

  /** One step of the backward walk over `l == placed[..n + 1] + Survivors(placed, views, n + 1)`:
      removing position `n` when species `n` is empty, or keeping it otherwise,
      leaves `placed[..n] + Survivors(placed, views, n)`. */
  lemma SurvivorsStep<T>(placed: seq<T>, views: seq<SpeciesView>, n: nat)
    requires |placed| == |views| && n < |views|
    ensures var l := placed[..n + 1] + Survivors(placed, views, n + 1);
      && l[n] == placed[n]
      && (views[n].members == [] ==> l[..n] + l[n + 1..] == placed[..n] + Survivors(placed, views, n))
      && (views[n].members != [] ==> l == placed[..n] + Survivors(placed, views, n))
  {
    var rest := Survivors(placed, views, n + 1);
    assert placed[..n + 1] == placed[..n] + [placed[n]];
    if views[n].members == [] {
      RemoveBetween(placed[..n], placed[n], rest);
    } else {
      assert placed[..n] + [placed[n]] + rest == placed[..n] + ([placed[n]] + rest);
    }
  }

  /** The survivors are exactly the elements at the kept positions. */
  lemma {:induction false} SurvivorsAreKept<T>(placed: seq<T>, views: seq<SpeciesView>, lo: nat)
    requires |placed| == |views| && lo <= |views|
    ensures Survivors(placed, views, lo) == Select(placed, Kept(views, lo))
    decreases |views| - lo
  {
    if lo < |views| {
      SurvivorsAreKept(placed, views, lo + 1);
      var rest := Kept(views, lo + 1);
      if views[lo].members != [] {
        assert Kept(views, lo) == [lo] + rest;
        SelectCons(placed, lo, rest);
      } else {
        assert Kept(views, lo) == rest;
      }
    }
  }
}
