/**
 * The collaborators the evolutionary loop consumes but does not define:
 * genomes, the networks evaluated from them, crossover, and the random source.
 * Only the interface the controller relies on is modelled.
 */
module Genetics {

  /** An evolvable genotype. The controller only needs its identity (it keys the
      genome-to-species and genome-to-network dictionaries); its genes are not modelled. */
  class Genome {
    constructor ()
    {
    }
  }

  /** The phenotype evaluated from one genome: a back-reference to that genome and
      the fitness value the evaluator writes. */
  class Network {
    const genome: Genome
    var fitness: real

    constructor (genome: Genome)
      ensures this.genome == genome
    {
      this.genome := genome;
    }
  }

  /** Crossover with `dominant` as the parent whose non-matching genes are preferred.
      How the genes are combined is outside this model; the controller relies only
      on getting back a new genome. */
  method Crossover(dominant: Genome, recessive: Genome) returns (child: Genome)
    ensures fresh(child)
  {
    child := new Genome();
  }

  /** `pick(key, n)` is the value the random source returns when asked, in the draw
      identified by `key`, for an index below `n` (as `System.Random.Next(n)` does).
      Any sequence of draws of a real generator is described by some such `pick`. */
  ghost predicate IndexSource(pick: (nat, nat) -> nat)
  {
    forall key: nat, n: nat :: 0 < n ==> pick(key, n) < n
  }
}
