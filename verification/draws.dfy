/**
 * Random draws lifted into an explicit input. A `Source` holds two
 * arbitrary streams, a stream of uniform samples in [0, 1) and a stream of
 * natural numbers, and a cursor into each. Every operation of `rand` that
 * the programs use is written in terms of these streams the way `rand`
 * itself derives it, so any outcome the library can produce is produced by
 * some source, and the model never speaks of probabilities.
 */
module Draws {
  import opened Wrappers
  import opened Sorting

  /** A uniform sample in [0, 1). */
  type Unit = r: real | 0.0 <= r < 1.0

  datatype Source = Source(uniform: nat -> Unit, words: nat -> nat, nextUniform: nat, nextWord: nat)
  {
    /**
     * `rng.gen_bool(p)`: a Bernoulli trial that compares the next uniform
     * sample with `p`, so `p == 0` never fires and `p == 1` always does.
     */
    function GenBool(p: real): (r: (bool, Source))
      requires 0.0 <= p <= 1.0
      ensures p == 0.0 ==> !r.0
      ensures p == 1.0 ==> r.0
      ensures r.1 == this.(nextUniform := nextUniform + 1)
    {
      (uniform(nextUniform) < p, this.(nextUniform := nextUniform + 1))
    }

    /** `rng.gen_range(lo..hi)`; the range must not be empty. */
    function GenRange(lo: int, hi: int): (r: (int, Source))
      requires lo < hi
      ensures lo <= r.0 < hi
      ensures r.1 == this.(nextWord := nextWord + 1)
    {
      (lo + words(nextWord) % (hi - lo), this.(nextWord := nextWord + 1))
    }

    /** The next uniform sample scaled to [0, bound). */
    function Scaled(bound: real): (r: (real, Source))
      requires bound > 0.0
      ensures 0.0 <= r.0 < bound
      ensures r.1 == this.(nextUniform := nextUniform + 1)
    {
      (uniform(nextUniform) * bound, this.(nextUniform := nextUniform + 1))
    }
  }

  /**
   * Whether the `i`-th coin drawn from `src` fires: the `i`-th uniform
   * sample from `src` is below `rate`.
   */
  predicate Fired(src: Source, i: nat, rate: real)
  {
    src.uniform(src.nextUniform + i) < rate
  }

  /** Sum of the weights. */
  function Total(ws: seq<real>): real
  {
    if ws == [] then 0.0 else ws[0] + Total(ws[1..])
  }

  predicate NonNegative(ws: seq<real>)
  {
    forall i :: 0 <= i < |ws| ==> ws[i] >= 0.0
  }

  lemma {:induction false} TotalNonNegative(ws: seq<real>)
    requires NonNegative(ws)
    ensures Total(ws) >= 0.0
  {
    if ws != [] {
      TotalNonNegative(ws[1..]);
    }
  }

  /**
   * The index whose cumulative-weight interval holds `u`, as
   * `WeightedIndex::sample` finds it: the count of cumulative weights
   * (all but the last) that are at most `u`.
   */
  function Pick(ws: seq<real>, u: real): (r: nat)
    requires |ws| >= 1
    requires NonNegative(ws)
    requires 0.0 <= u < Total(ws)
    ensures r < |ws|
    ensures ws[r] > 0.0
  {
    if |ws| == 1 then
      assert Total(ws[1..]) == 0.0;
      0
    else if u < ws[0] then 0
    else
      assert NonNegative(ws[1..]);
      1 + Pick(ws[1..], u - ws[0])
  }

  /**
   * `WeightedIndex::new(ws)` followed by one `sample`: `None` when there
   * is nothing to draw from (no weights, or a total of zero), which is
   * the `Err` of `WeightedIndex::new`; otherwise an index of a positive
   * weight.
   */
  function SampleWeighted(ws: seq<real>, src: Source): (r: Option<(nat, Source)>)
    requires NonNegative(ws)
    ensures r.None? <==> Total(ws) == 0.0
    ensures r.Some? ==> r.value.0 < |ws| && ws[r.value.0] > 0.0
  {
    TotalNonNegative(ws);
    if Total(ws) == 0.0 then None
    else
      var (u, src') := src.Scaled(Total(ws));
      Some((Pick(ws, u), src'))
  }

  /**
   * `(lo..hi).choose_multiple(rng, amount)`: reservoir sampling. The first
   * `amount` values fill the reservoir; each later value `v` replaces slot
   * `gen_range(0..v - lo + 1)` when that slot exists. The result is in no
   * particular order.
   */
  function ChooseMultiple(lo: int, hi: int, amount: nat, src: Source): (r: (seq<int>, Source))
    ensures |r.0| == if hi - lo < amount then (if hi < lo then 0 else hi - lo) else amount
    ensures Distinct(r.0)
    ensures forall k :: 0 <= k < |r.0| ==> lo <= r.0[k] < hi
  {
    if hi - lo <= amount then
      (seq(if hi < lo then 0 else hi - lo, k => lo + k), src)
    else
      Replace(seq(amount, k => lo + k), lo, lo + amount, hi, src)
  }

  /** The replacement phase of reservoir sampling, from value `v` on. */
  function Replace(reservoir: seq<int>, lo: int, v: int, hi: int, src: Source): (r: (seq<int>, Source))
    requires lo <= v <= hi
    requires Distinct(reservoir)
    requires forall k :: 0 <= k < |reservoir| ==> lo <= reservoir[k] < v
    ensures |r.0| == |reservoir|
    ensures Distinct(r.0)
    ensures forall k :: 0 <= k < |r.0| ==> lo <= r.0[k] < hi
    decreases hi - v
  {
    if v == hi then (reservoir, src)
    else
      var (slot, src') := src.GenRange(0, v - lo + 1);
      var next := if slot < |reservoir| then reservoir[slot := v] else reservoir;
      Replace(next, lo, v + 1, hi, src')
  }
}
