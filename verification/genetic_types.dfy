/**
 * The values the generational engine works on (genetic/src/genetic.rs):
 * a fitness that is either a score or `Invalid`, its derived ordering, and
 * a genotype carrying its genes and the fitness recorded for them.
 */
module GeneticTypes {
  import opened Wrappers
  import opened Text
  import opened Sorting

  /** `enum Fitness { Valid(f64), Invalid }`; scores are reals (no NaN). */
  datatype Fitness = Valid(score: real) | Invalid

  datatype Ordering = Less | Equal | Greater

  /**
   * The derived `PartialOrd`: variants compare by declaration order, so
   * every `Valid` is below `Invalid`; two `Valid`s compare by score.
   */
  function Compare(a: Fitness, b: Fitness): (r: Ordering)
    ensures r == Equal <==> a == b
    ensures a.Valid? && b.Invalid? ==> r == Less
    ensures a.Invalid? && b.Valid? ==> r == Greater
  {
    match (a, b)
    case (Valid(x), Valid(y)) => if x < y then Less else if x == y then Equal else Greater
    case (Valid(_), Invalid) => Less
    case (Invalid, Valid(_)) => Greater
    case (Invalid, Invalid) => Equal
  }

  /** `a <= b` under the derived ordering. */
  predicate AtMost(a: Fitness, b: Fitness)
  {
    Compare(a, b) != Greater
  }

  /** The derived ordering is a total order: antisymmetric, total and transitive. */
  lemma CompareIsTotalOrder(a: Fitness, b: Fitness, c: Fitness)
    ensures Compare(a, b) == Less <==> Compare(b, a) == Greater
    ensures AtMost(a, b) || AtMost(b, a)
    ensures AtMost(a, b) && AtMost(b, a) ==> a == b
    ensures AtMost(a, b) && AtMost(b, c) ==> AtMost(a, c)
  {
  }

  /** Two `Valid`s are ordered by their scores. */
  lemma ValidOrderedByScore(x: real, y: real)
    ensures Compare(Valid(x), Valid(y)) == Less <==> x < y
    ensures AtMost(Valid(x), Valid(y)) <==> x <= y
  {
  }

  /** The comparisons asserted by the crate's own unit test of the ordering. */
  lemma FitnessComparisons()
    ensures Compare(Valid(1.0), Valid(0.0)) == Greater
    ensures Compare(Valid(0.0), Valid(1.0)) == Less
    ensures Valid(0.0) == Valid(0.0) && Valid(1.0) != Valid(0.0)
    ensures Valid(0.0) != Invalid && Invalid == Invalid
    ensures Compare(Valid(0.0), Invalid) == Less
  {
  }

  /** `Fitness::unwrap`: the score, or a panic for `Invalid`. */
  function Unwrap(f: Fitness): (r: Result<real, string>)
    ensures r.Ok? <==> f.Valid?
    ensures r.Ok? ==> f == Valid(r.value)
  {
    match f
    case Valid(x) => Ok(x)
    case Invalid => Err("Fitness is invalid!")
  }

  /** `struct Genotype { fitness, genotype: Vec<u8> }`. */
  datatype Genotype = Genotype(fitness: Fitness, genes: seq<byte>)

  /** The comparator of the engine's reverse sorts: `b.fitness.partial_cmp(&a.fitness)`. */
  function FitterFirst(): (Genotype, Genotype) -> bool
  {
    (a: Genotype, b: Genotype) => AtMost(b.fitness, a.fitness)
  }

  lemma FitterFirstIsPreorder()
    ensures TotalPreorder(FitterFirst())
  {
    forall a: Genotype, b: Genotype, c: Genotype
      ensures FitterFirst()(a, b) && FitterFirst()(b, c) ==> FitterFirst()(a, c)
    {
      CompareIsTotalOrder(c.fitness, b.fitness, a.fitness);
    }
    forall a: Genotype, b: Genotype
      ensures FitterFirst()(a, b) || FitterFirst()(b, a)
    {
      CompareIsTotalOrder(a.fitness, b.fitness, a.fitness);
    }
  }

  /**
   * The stable reverse sort by fitness: best first, and, because `Invalid`
   * is the greatest fitness, invalid genotypes ahead of every valid one.
   */
  function SortFittestFirst(pop: seq<Genotype>): (r: seq<Genotype>)
    ensures multiset(r) == multiset(pop)
    ensures |r| == |pop|
    ensures forall i, j :: 0 <= i < j < |r| ==> AtMost(r[j].fitness, r[i].fitness)
    ensures forall g :: g in r <==> g in pop
  {
    FitterFirstIsPreorder();
    var r := SortBy(pop, FitterFirst());
    assert forall g :: g in r <==> g in pop by {
      forall g ensures g in r <==> g in pop {
        assert g in r <==> g in multiset(r);
        assert g in pop <==> g in multiset(pop);
      }
    }
    r
  }

  /** After the reverse sort no valid genotype precedes an invalid one. */
  lemma InvalidSortedFirst(pop: seq<Genotype>, i: nat, j: nat)
    requires i < j < |pop|
    requires SortFittestFirst(pop)[j].fitness.Invalid?
    ensures SortFittestFirst(pop)[i].fitness.Invalid?
  {
  }
}
