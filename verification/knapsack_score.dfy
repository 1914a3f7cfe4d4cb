/**
 * The knapsack helpers of the string-based genetic algorithm
 * (genetic-algorithms/src/problems/knapsack.rs): the exact integer totals
 * of a selection, its value ratio, and the "average fitness" of an item
 * list. The file parser is line for line the one of the generational
 * engine and is modelled once, as `KnapsackProblem.ParseFile`.
 */
module KnapsackScore {
  import opened KnapsackProblem

  /**
   * The f64 result of dividing quantities that are never negative: a
   * finite number, or, for a division by zero, infinity (positive
   * numerator) or NaN (zero numerator). The -1.0 sentinel is also finite.
   */
  datatype F64 = Finite(x: real) | Infinity | NaN

  /** `a as f64 / b as f64` for unsigned `a` and `b`. */
  function Quotient(a: nat, b: nat): (q: F64)
    ensures b > 0 ==> q == Finite(a as real / b as real)
    ensures b == 0 ==> (q == NaN <==> a == 0) && (q == Infinity <==> a > 0)
  {
    if b > 0 then Finite(a as real / b as real)
    else if a > 0 then Infinity
    else NaN
  }

  /** `q / n as f64` for a non-negative `q`: infinity stays infinite, NaN stays NaN. */
  function DivideBy(q: F64, n: nat): (r: F64)
    requires q.Finite? ==> q.x >= 0.0
    ensures q.Finite? && n > 0 ==> r == Finite(q.x / n as real)
    ensures q.NaN? ==> r.NaN?
  {
    match q
    case Finite(x) =>
      if n > 0 then Finite(x / n as real)
      else if x > 0.0 then Infinity
      else NaN
    case Infinity => Infinity
    case NaN => NaN
  }

  /** The gene that selects an item. */
  const SELECTED: char := '1'

  /**
   * `fitness`: the integer weight and value of the items whose character
   * is `'1'` (items and characters paired as by `zip`), and the value
   * ratio `value / max_weight`, or -1.0 for a selection heavier than
   * `max_weight`; a zero limit gives NaN or infinity.
   */
  function Fitness(items: seq<(nat, nat)>, maxWeight: nat, s: string): (r: (nat, nat, F64))
    ensures (r.0, r.1) == Totals(items, s, SELECTED)
    ensures r.2 == Finite(-1.0) <==> r.0 > maxWeight
    ensures r.0 <= maxWeight && maxWeight > 0 ==> r.2 == Finite(r.1 as real / maxWeight as real) && 0.0 <= r.2.x
    ensures r.0 <= maxWeight && maxWeight == 0 ==> (r.2 == NaN <==> r.1 == 0) && (r.2 == Infinity <==> r.1 > 0)
    ensures !r.2.Finite? ==> maxWeight == 0
  {
    var (weight, value) := Totals(items, s, SELECTED);
    (weight, value, if weight > maxWeight then Finite(-1.0) else Quotient(value, maxWeight))
  }

  /** The string of `n` `'1'`s: every item selected. */
  function AllSelected(n: nat): (s: string)
    ensures |s| == n && forall k :: 0 <= k < n ==> s[k] == SELECTED
  {
    seq(n, _ => SELECTED)
  }

  /** Sum of the weights and of the values of all items. */
  function Sums(items: seq<(nat, nat)>): (nat, nat)
  {
    if items == [] then (0, 0)
    else
      var (w, v) := Sums(items[1..]);
      (items[0].0 + w, items[0].1 + v)
  }

  /**
   * `average_fitness`: -1.0 when the items together are heavier than
   * `max_weight`, otherwise their total value ratio divided by the number
   * of items. No genotype takes part.
   */
  function AverageFitness(items: seq<(nat, nat)>, maxWeight: nat): (r: F64)
    ensures Sums(items).0 > maxWeight ==> r == Finite(-1.0)
    ensures Sums(items).0 <= maxWeight && maxWeight > 0 && |items| > 0 ==>
      r == Finite((Sums(items).1 as real / maxWeight as real) / |items| as real)
  {
    var (weight, value) := Sums(items);
    if weight > maxWeight then Finite(-1.0) else DivideBy(Quotient(value, maxWeight), |items|)
  }

  /** The sums of all items are the totals of the selection that takes every item. */
  lemma {:induction false} SumsAreFullSelection(items: seq<(nat, nat)>)
    ensures Sums(items) == Totals(items, AllSelected(|items|), SELECTED)
  {
    if items != [] {
      SumsAreFullSelection(items[1..]);
      assert AllSelected(|items|)[1..] == AllSelected(|items| - 1);
    }
  }

  /**
   * `average_fitness` is the fitness of selecting every item, spread over
   * the item count: -1.0 exactly when that selection is too heavy.
   */
  lemma AverageOfFullSelection(items: seq<(nat, nat)>, maxWeight: nat)
    ensures var f := Fitness(items, maxWeight, AllSelected(|items|));
      f.2 == Finite(-1.0) ==> AverageFitness(items, maxWeight) == f.2
    ensures var f := Fitness(items, maxWeight, AllSelected(|items|));
      f.2 != Finite(-1.0) ==> (f.2.Finite? ==> f.2.x >= 0.0) && AverageFitness(items, maxWeight) == DivideBy(f.2, |items|)
  {
    SumsAreFullSelection(items);
  }

  /** Characters beyond the last item do not count. */
  lemma FitnessIgnoresExtra(items: seq<(nat, nat)>, maxWeight: nat, s: string)
    requires |s| >= |items|
    ensures Fitness(items, maxWeight, s) == Fitness(items, maxWeight, s[..|items|])
  {
    TotalsTruncate(items, s, SELECTED, |items|);
    assert items[..|items|] == items;
  }

  /** Selecting one more item adds exactly its weight and value. */
  lemma FitnessSelectOne(items: seq<(nat, nat)>, maxWeight: nat, s: string, i: nat)
    requires i < |items| && i < |s| && s[i] != SELECTED
    ensures Fitness(items, maxWeight, s[i := SELECTED]).0 == Fitness(items, maxWeight, s).0 + items[i].0
    ensures Fitness(items, maxWeight, s[i := SELECTED]).1 == Fitness(items, maxWeight, s).1 + items[i].1
  {
    TotalsSelect(items, s, SELECTED, i);
  }
}
