/** Small sequence helpers shared by the other modules. */
module Seqs {

  /** No element occurs twice. */
  predicate Distinct<T(==)>(s: seq<T>)
  {
    forall i, j :: 0 <= i < j < |s| ==> s[i] != s[j]
  }

  /** A position at which `x` occurs in `s`. */
  ghost function IndexOf<T>(s: seq<T>, x: T): (i: nat)
    requires x in s
    ensures i < |s| && s[i] == x
  {
    var i :| 0 <= i < |s| && s[i] == x; i
  }

  /** Every element's first-found position is where it sits: the linear form
      of `Distinct`, cheaper for the verifier to carry through loops. */
  ghost predicate Injective<T>(s: seq<T>)
  {
    forall t :: 0 <= t < |s| ==> IndexOf(s, s[t]) == t
  }

  /** The two forms of "no duplicates" agree. */
  lemma DistinctInjective<T>(s: seq<T>)
    ensures Distinct(s) <==> Injective(s)
  {
    if Distinct(s) {
      forall t | 0 <= t < |s|
        ensures IndexOf(s, s[t]) == t
      {
        var i := IndexOf(s, s[t]);
        assert s[i] == s[t];
      }
    }
    if Injective(s) {
      forall i, j | 0 <= i < j < |s|
        ensures s[i] != s[j]
      {
        assert IndexOf(s, s[i]) == i && IndexOf(s, s[j]) == j;
      }
    }
  }

  /** Appending a new element keeps a sequence duplicate-free. */
  lemma InjectiveAppend<T>(s: seq<T>, x: T)
    requires Injective(s) && x !in s
    ensures Injective(s + [x])
  {
    var r := s + [x];
    forall t | 0 <= t < |r|
      ensures IndexOf(r, r[t]) == t
    {
      var i := IndexOf(r, r[t]);
      if t < |s| {
        assert r[t] == s[t];
        if i < |s| {
          assert s[i] == s[t];
          assert IndexOf(s, s[i]) == i;
        }
      }
    }
  }

  /** The elements of `s` at the positions `ks`, in the order of `ks`. */
  function Select<T>(s: seq<T>, ks: seq<nat>): (r: seq<T>)
    requires forall j :: 0 <= j < |ks| ==> ks[j] < |s|
    ensures |r| == |ks|
    ensures forall j :: 0 <= j < |ks| ==> r[j] == s[ks[j]]
  {
    if ks == [] then [] else [s[ks[0]]] + Select(s, ks[1..])
  }

  /** Selecting one more position in front selects that element in front. */
  lemma SelectCons<T>(s: seq<T>, k: nat, ks: seq<nat>)
    requires k < |s|
    requires forall j :: 0 <= j < |ks| ==> ks[j] < |s|
    ensures Select(s, [k] + ks) == [s[k]] + Select(s, ks)
  {
    assert ([k] + ks)[1..] == ks;
  }

  lemma AppendAssoc<T>(a: seq<T>, b: seq<T>, c: seq<T>)
    ensures a + (b + c) == a + b + c
  {
  }

  /** Two duplicate-free sequences with no element in common concatenate to a
      duplicate-free sequence. */
  lemma DistinctAppend<T>(a: seq<T>, b: seq<T>)
    requires Distinct(a) && Distinct(b)
    requires forall i, j :: 0 <= i < |a| && 0 <= j < |b| ==> a[i] != b[j]
    ensures Distinct(a + b)
  {
  }

  /** Removing the element between `a` and `b` leaves `a + b`. */
  lemma RemoveBetween<T>(a: seq<T>, x: T, b: seq<T>)
    ensures (a + [x] + b)[..|a|] + (a + [x] + b)[|a| + 1..] == a + b
  {
    assert (a + [x] + b)[..|a|] == a;
    assert (a + [x] + b)[|a| + 1..] == b;
  }

  /** Selecting strictly increasing positions of a duplicate-free sequence gives a duplicate-free sequence. */
  lemma SelectDistinct<T>(s: seq<T>, ks: seq<nat>)
    requires forall j :: 0 <= j < |ks| ==> ks[j] < |s|
    requires forall j, j' :: 0 <= j < j' < |ks| ==> ks[j] < ks[j']
    requires Distinct(s)
    ensures Distinct(Select(s, ks))
  {
  }

  /** Sum of reals, added left to right. */
  function Sum(xs: seq<real>): real
  {
    if xs == [] then 0.0 else Sum(xs[..|xs| - 1]) + xs[|xs| - 1]
  }

  /** Sum of naturals, added left to right. */
  function SumNat(xs: seq<nat>): nat
  {
    if xs == [] then 0 else SumNat(xs[..|xs| - 1]) + xs[|xs| - 1]
  }
}
