/**
 * Explicit fitness sharing: each network's fitness is divided by the member
 * count of its species, and each species accumulates the shared values of its
 * networks.
 */
module Sharing {
  import opened Seqs
  import opened Genetics
  import opened Speciation

  /** The species each network's genome was assigned to, in the order of `nets`. */
  function Owners(nets: seq<Network>, speciesMap: map<Genome, Species>): (owners: seq<Species>)
    requires forall i :: 0 <= i < |nets| ==> nets[i].genome in speciesMap
    ensures |owners| == |nets|
    ensures forall i :: 0 <= i < |nets| ==> owners[i] == speciesMap[nets[i].genome]
  {
    seq(|nets|, i requires 0 <= i < |nets| => speciesMap[nets[i].genome])
  }

  /** The fitness of each network, in order. */
  function NetFitnesses(nets: seq<Network>): (fs: seq<real>)
    reads nets
    ensures |fs| == |nets|
    ensures forall i :: 0 <= i < |nets| ==> fs[i] == nets[i].fitness
  {
    seq(|nets|, i reads nets requires 0 <= i < |nets| => nets[i].fitness)
  }

  /** Each value divided by the member count of its owner. */
  function SharedFitnesses(owners: seq<Species>, raw: seq<real>): (shared: seq<real>)
    requires |owners| == |raw|
    requires forall i :: 0 <= i < |owners| ==> |owners[i].members| > 0
    reads owners
    ensures |shared| == |raw|
    ensures forall i :: 0 <= i < |raw| ==> shared[i] == raw[i] / |owners[i].members| as real
  {
    seq(|raw|, i reads owners requires 0 <= i < |raw| && |owners[i].members| > 0 => raw[i] / |owners[i].members| as real)
  }

  /** The sum of the values whose owner is `s`, in order. */
  function ShareOf(owners: seq<Species>, values: seq<real>, s: Species): real
    requires |owners| == |values|
  {
    if owners == [] then 0.0
    else
      var n := |owners| - 1;
      ShareOf(owners[..n], values[..n], s) + (if owners[n] == s then values[n] else 0.0)
  }

  /** The sum of the first `n` values whose owner is `s`. */
  function ShareOfFirst(owners: seq<Species>, values: seq<real>, s: Species, n: nat): real
    requires n <= |owners| == |values|
  {
    if n == 0 then 0.0
    else ShareOfFirst(owners, values, s, n - 1) + (if owners[n - 1] == s then values[n - 1] else 0.0)
  }

  /** Summing all the values position by position gives the species' share. */
  lemma {:induction false} ShareOfFirstAll(owners: seq<Species>, values: seq<real>, s: Species, n: nat)
    requires n <= |owners| == |values|
    ensures ShareOfFirst(owners, values, s, n) == ShareOf(owners[..n], values[..n], s)
  {
    if n > 0 {
      ShareOfFirstAll(owners, values, s, n - 1);
      assert owners[..n][..n - 1] == owners[..n - 1] && values[..n][..n - 1] == values[..n - 1];
    }
  }

  /** A species that owns none of the values gets nothing. */
  lemma {:induction false} ShareOfAbsent(owners: seq<Species>, values: seq<real>, s: Species)
    requires |owners| == |values| && s !in owners
    ensures ShareOf(owners, values, s) == 0.0
    decreases |owners|
  {
    if owners != [] {
      var n := |owners| - 1;
      assert owners[n] in owners;
      assert forall i :: 0 <= i < n ==> owners[..n][i] == owners[i];
      ShareOfAbsent(owners[..n], values[..n], s);
    }
  }

  /** The sum, over the species of `list`, of what each one owns. */
  function ShareOfAll(list: seq<Species>, owners: seq<Species>, values: seq<real>): real
    requires |owners| == |values|
  {
    if list == [] then 0.0
    else ShareOfAll(list[..|list| - 1], owners, values) + ShareOf(owners, values, list[|list| - 1])
  }

  /** A value owned by `o` is counted once when the species are distinct and `o` is one of them. */
  lemma {:induction false} OneOwner(list: seq<Species>, o: Species, v: real)
    requires Distinct(list)
    ensures ShareOfAll(list, [o], [v]) == if o in list then v else 0.0
    decreases |list|
  {
    if list != [] {
      var prev := list[..|list| - 1];
      assert Distinct(prev) by {
        assert forall i :: 0 <= i < |prev| ==> prev[i] == list[i];
      }
      OneOwner(prev, o, v);
      assert ShareOf([o], [v], list[|list| - 1]) == if o == list[|list| - 1] then v else 0.0 by {
        assert [o][..0] == [] && [v][..0] == [];
      }
      assert o in list <==> o in prev || o == list[|list| - 1];
      if o in prev {
        assert o != list[|list| - 1];
      }
    }
  }

  /** Appending one owned value adds it to the total of the owning species only. */
  lemma {:induction false} ShareOfAllAppend(list: seq<Species>, owners: seq<Species>, values: seq<real>, o: Species, v: real)
    requires |owners| == |values|
    ensures ShareOfAll(list, owners + [o], values + [v]) == ShareOfAll(list, owners, values) + ShareOfAll(list, [o], [v])
    decreases |list|
  {
    if list != [] {
      var prev := list[..|list| - 1];
      var s := list[|list| - 1];
      ShareOfAllAppend(prev, owners, values, o, v);
      assert (owners + [o])[..|owners|] == owners;
      assert (values + [v])[..|values|] == values;
      assert [o][..0] == [] && [v][..0] == [];
      assert ShareOf(owners + [o], values + [v], s) == ShareOf(owners, values, s) + ShareOf([o], [v], s);
    }
  }

  /** Sharing conserves the total: when every owner is one of the distinct species
      of `list`, the species' totals add up to the sum of all the values. */
  lemma {:induction false} SharesPartitionTotal(list: seq<Species>, owners: seq<Species>, values: seq<real>)
    requires Distinct(list)
    requires |owners| == |values|
    requires forall i :: 0 <= i < |owners| ==> owners[i] in list
    ensures ShareOfAll(list, owners, values) == Sum(values)
    decreases |owners|
  {
    if owners == [] {
      EmptyOwners(list, values);
    } else {
      var n := |owners| - 1;
      assert owners == owners[..n] + [owners[n]];
      assert values == values[..n] + [values[n]];
      SharesPartitionTotal(list, owners[..n], values[..n]);
      ShareOfAllAppend(list, owners[..n], values[..n], owners[n], values[n]);
      OneOwner(list, owners[n], values[n]);
    }
  }

  lemma {:induction false} EmptyOwners(list: seq<Species>, values: seq<real>)
    requires values == []
    ensures ShareOfAll(list, [], values) == 0.0
    decreases |list|
  {
    if list != [] {
      EmptyOwners(list[..|list| - 1], values);
    }
  }

  /** Dividing each of a species' values by its member count `n` divides that
      species' total by `n`: the shared total is the raw total over `n`. */
  lemma {:induction false} SharedTotalIsRawOverCount(owners: seq<Species>, raw: seq<real>, shared: seq<real>, s: Species, n: real)
    requires |owners| == |raw| == |shared|
    requires n > 0.0
    requires forall i :: 0 <= i < |owners| && owners[i] == s ==> shared[i] == raw[i] / n
    ensures ShareOf(owners, shared, s) == ShareOf(owners, raw, s) / n
    decreases |owners|
  {
    if owners != [] {
      var m := |owners| - 1;
      SharedTotalIsRawOverCount(owners[..m], raw[..m], shared[..m], s, n);
    }
  }
}
