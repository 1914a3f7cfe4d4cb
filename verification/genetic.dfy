/**
 * The generational genetic-algorithm engine of genetic/src/genetic.rs:
 * crossover of two genotype buffers, the three ways of filling the mating
 * pool, the crowding test, and the step that breeds a new population.
 * Random draws come from a `Source` (see module `Draws`).
 */
module Genetic {
  import opened Wrappers
  import opened Text
  import opened Sorting
  import opened Draws
  import opened GeneticTypes
  import opened KnapsackProblem

  datatype SexMethod = One | Two | Uniform

  datatype SelectionMethod = Equal | Replacement | Remainder

  /** The fields of a generation that `Genotype::reproduce` reads. */
  datatype Settings = Settings(skip: real, sex: SexMethod, mutationRate: real, forceMutation: bool, problem: Knapsack)
  {
    predicate Rates() { 0.0 <= skip <= 1.0 && 0.0 <= mutationRate <= 1.0 }
  }

  // ---------------------------------------------------------------- crossover

  /** How many crossover points are at or before position `j`. */
  function CountAtMost(points: seq<int>, j: int): (c: nat)
    ensures c <= |points|
  {
    if points == [] then 0 else (if points[0] <= j then 1 else 0) + CountAtMost(points[1..], j)
  }

  /**
   * Whether position `j` ends up exchanged. Position `j` lies in segment
   * `c`, the one after the `c`-th point; the loop swaps segment `c` when `c`
   * is even, and the segment after the last point is never visited.
   */
  predicate SwapsAt(points: seq<int>, j: int)
  {
    var c := CountAtMost(points, j);
    c < |points| && c % 2 == 0
  }

  /**
   * Both buffers after the crossover loop: at every position the pair of
   * genes is the parents' pair, exchanged exactly where `SwapsAt` holds.
   */
  function Cross(x: seq<byte>, y: seq<byte>, points: seq<int>): (r: (seq<byte>, seq<byte>))
    requires |x| == |y|
    ensures |r.0| == |r.1| == |x|
    ensures forall j :: 0 <= j < |x| ==>
      if SwapsAt(points, j) then r.0[j] == y[j] && r.1[j] == x[j] else r.0[j] == x[j] && r.1[j] == y[j]
  {
    (seq(|x|, j requires 0 <= j < |x| => if SwapsAt(points, j) then y[j] else x[j]),
     seq(|x|, j requires 0 <= j < |x| => if SwapsAt(points, j) then x[j] else y[j]))
  }

  /** Position `j` between point `t - 1` and point `t` of increasing points is in segment `t`. */
  lemma {:induction false} CountBetween(points: seq<int>, t: nat, j: int)
    requires Increasing(points)
    requires t <= |points|
    requires t == 0 || points[t - 1] <= j
    requires t == |points| || j < points[t]
    ensures CountAtMost(points, j) == t
  {
    if points != [] {
      if t == 0 {
        CountBetween(points[1..], 0, j);
      } else {
        CountBetween(points[1..], t - 1, j);
      }
    }
  }

  /**
   * The segment `[p(k-1), p(k))` in front of point `k` is exchanged exactly
   * when `k` is even, counting from 0 and with `p(-1) = 0`.
   */
  lemma SegmentsAlternate(points: seq<int>, k: nat, j: int)
    requires Increasing(points)
    requires k < |points|
    requires (if k == 0 then 0 else points[k - 1]) <= j < points[k]
    ensures SwapsAt(points, j) <==> k % 2 == 0
  {
    if k > 0 {
      CountBetween(points, k, j);
    } else {
      CountBetween(points, 0, j);
    }
  }

  /** Nothing from the last point on is exchanged. */
  lemma TailKept(points: seq<int>, j: int)
    requires Increasing(points)
    requires points != [] && points[|points| - 1] <= j
    ensures !SwapsAt(points, j)
  {
    CountBetween(points, |points|, j);
  }

  /**
   * Two-point crossover exchanges the same genes as one-point crossover at
   * the smaller point: the second point starts the never-swapped tail.
   */
  lemma TwoPointIsOnePoint(x: seq<byte>, y: seq<byte>, p: int, q: int)
    requires |x| == |y|
    requires p < q
    ensures Cross(x, y, [p, q]) == Cross(x, y, [p])
  {
    forall j | 0 <= j < |x| ensures SwapsAt([p, q], j) <==> SwapsAt([p], j) {
      assert [p, q][1..] == [q];
      assert [q][1..] == [];
      assert CountAtMost([p, q], j) == (if p <= j then 1 else 0) + (if q <= j then 1 else 0);
      assert CountAtMost([p], j) == if p <= j then 1 else 0;
    }
    var l := Cross(x, y, [p, q]);
    var r := Cross(x, y, [p]);
    assert l.0 == r.0 && l.1 == r.1;
  }

  /**
   * The crossover loop of `Genotype::reproduce`: for each point `i` in
   * order, `[last, i)` is exchanged between the buffers when the toggle is
   * on, then `last = i` and the toggle flips.
   */
  method Crossover(a: array<byte>, b: array<byte>, points: seq<int>)
    requires a != b && a.Length == b.Length
    requires Increasing(points)
    requires forall k :: 0 <= k < |points| ==> 0 <= points[k] <= a.Length
    modifies a, b
    ensures (a[..], b[..]) == Cross(old(a[..]), old(b[..]), points)
  {
    var last := 0;
    var toggle := true;
    for t := 0 to |points|
      invariant last == if t == 0 then 0 else points[t - 1]
      invariant toggle <==> t % 2 == 0
      invariant forall j :: 0 <= j < last ==>
        if SwapsAt(points, j) then a[j] == old(b[j]) && b[j] == old(a[j]) else a[j] == old(a[j]) && b[j] == old(b[j])
      invariant forall j :: last <= j < a.Length ==> a[j] == old(a[j]) && b[j] == old(b[j])
    {
      var i := points[t];
      forall j | last <= j < i ensures SwapsAt(points, j) <==> toggle {
        CountBetween(points, t, j);
      }
      if toggle {
        for j := last to i
          invariant forall m :: last <= m < j ==> a[m] == old(b[m]) && b[m] == old(a[m])
          invariant forall m :: j <= m < a.Length ==> a[m] == old(a[m]) && b[m] == old(b[m])
          invariant forall m :: 0 <= m < last ==>
            if SwapsAt(points, m) then a[m] == old(b[m]) && b[m] == old(a[m]) else a[m] == old(a[m]) && b[m] == old(b[m])
        {
          a[j], b[j] := b[j], a[j];
        }
      }
      last := i;
      toggle := !toggle;
    }
    forall j | last <= j < a.Length ensures !SwapsAt(points, j) {
      CountBetween(points, |points|, j);
    }
    assert a[..] == Cross(old(a[..]), old(b[..]), points).0;
    assert b[..] == Cross(old(a[..]), old(b[..]), points).1;
  }

  // ------------------------------------------------------------- reproduction

  /**
   * The crossover points as `choose_multiple` yields them: one or two
   * distinct positions from `1..length`, or for `Uniform` a count drawn from
   * `3..length` (an empty range, and so a panic, when `length <= 3`).
   */
  function ChoosePoints(sex: SexMethod, length: nat, src: Source): (r: Option<(seq<int>, Source)>)
    ensures r.None? <==> sex == Uniform && length <= 3
    ensures r.Some? ==> Distinct(r.value.0)
    ensures r.Some? ==> forall k :: 0 <= k < |r.value.0| ==> 1 <= r.value.0[k] < length
    ensures r.Some? && sex == One ==> |r.value.0| == Min(1, Gaps(length))
    ensures r.Some? && sex == Two ==> |r.value.0| == Min(2, Gaps(length))
    ensures r.Some? && sex == Uniform ==> 3 <= |r.value.0| < length
  {
    match sex
    case One => Some(ChooseMultiple(1, length, 1, src))
    case Two => Some(ChooseMultiple(1, length, 2, src))
    case Uniform =>
      if length <= 3 then None
      else
        var (num, src') := src.GenRange(3, length);
        Some(ChooseMultiple(1, length, num, src'))
  }

  /** The crossover points after `num_points.sort()`: increasing, inside `1..length`. */
  function Points(sex: SexMethod, length: nat, src: Source): (r: Option<(seq<int>, Source)>)
    ensures r.None? <==> sex == Uniform && length <= 3
    ensures r.Some? ==> Increasing(r.value.0)
    ensures r.Some? ==> forall k :: 0 <= k < |r.value.0| ==> 1 <= r.value.0[k] < length
    ensures r.Some? ==> |r.value.0| == |ChoosePoints(sex, length, src).value.0|
  {
    match ChoosePoints(sex, length, src)
    case None => None
    case Some(pair) =>
      SortDistinct(pair.0);
      assert forall k :: 0 <= k < |SortInts(pair.0)| ==> SortInts(pair.0)[k] in pair.0 by {
        forall k | 0 <= k < |SortInts(pair.0)| ensures SortInts(pair.0)[k] in pair.0 {
          assert SortInts(pair.0)[k] in SortInts(pair.0);
        }
      }
      Some((SortInts(pair.0), pair.1))
  }

  /** The number of positions `1..length` a crossover point can take. */
  function Gaps(length: nat): nat
  {
    if length == 0 then 0 else length - 1
  }

  /** How a call of `reproduce` went. */
  datatype Mating = Mismatch | Skipped | Crossed(points: seq<int>) | NoPoints

  /**
   * `Genotype::reproduce` on the genes `x` (self) and `y` (mate): a length
   * check that panics (`Mismatch`), a skip coin that keeps both parents,
   * the crossover points (`NoPoints` is the panic of an empty `gen_range`),
   * the crossover, then `mutate` on self and on mate.
   */
  function ReproduceSpec(s: Settings, x: seq<byte>, y: seq<byte>, src: Source): (r: (Mating, seq<byte>, seq<byte>, Source))
    requires s.Rates()
    ensures r.0 == Mismatch <==> |x| != |y| || |x| != Len(s.problem)
    ensures r.0 == NoPoints ==> s.sex == Uniform && |x| <= 3
    ensures !r.0.Crossed? ==> r.1 == x && r.2 == y
    ensures |r.1| == |x| && |r.2| == |y|
  {
    if |x| != |y| || |x| != Len(s.problem) then (Mismatch, x, y, src)
    else
      var (skip, s1) := src.GenBool(s.skip);
      if skip then (Skipped, x, y, s1)
      else
        match Points(s.sex, |x|, s1)
        case None => (NoPoints, x, y, s1)
        case Some((points, s2)) =>
          var (cx, cy) := Cross(x, y, points);
          var (mx, s3) := MutatePrefix(cx, |cx|, s.mutationRate, s.forceMutation, s2);
          var (my, s4) := MutatePrefix(cy, |cy|, s.mutationRate, s.forceMutation, s3);
          (Crossed(points), mx, my, s4)
  }

  /** A skip coin that fires hands back both parents untouched. */
  lemma SkipKeepsParents(s: Settings, x: seq<byte>, y: seq<byte>, src: Source)
    requires s.Rates()
    requires |x| == |y| == Len(s.problem)
    requires src.uniform(src.nextUniform) < s.skip
    ensures ReproduceSpec(s, x, y, src).0 == Skipped
  {
  }

  /**
   * Without mutation the children are exactly the crossed parents: the
   * parents' pair of genes at every position, exchanged in the alternate
   * segments `SegmentsAlternate` describes and kept from the last point on
   * (`TailKept`), with the points increasing inside `1..length`.
   */
  lemma CrossedWithoutMutation(s: Settings, x: seq<byte>, y: seq<byte>, src: Source)
    requires s.Rates() && s.mutationRate == 0.0
    requires ReproduceSpec(s, x, y, src).0.Crossed?
    ensures |x| == |y|
    ensures Increasing(ReproduceSpec(s, x, y, src).0.points)
    ensures forall k :: 0 <= k < |ReproduceSpec(s, x, y, src).0.points| ==>
      1 <= ReproduceSpec(s, x, y, src).0.points[k] < |x|
    ensures (ReproduceSpec(s, x, y, src).1, ReproduceSpec(s, x, y, src).2)
         == Cross(x, y, ReproduceSpec(s, x, y, src).0.points)
  {
    var (skip, s1) := src.GenBool(s.skip);
    var (points, s2) := Points(s.sex, |x|, s1).value;
    var (cx, cy) := Cross(x, y, points);
    MutateRateZero(cx, s.forceMutation, s2);
    MutateRateZero(cy, s.forceMutation, MutatePrefix(cx, |cx|, 0.0, s.forceMutation, s2).1);
  }

  /** `Genotype::reproduce`, changing both genotype buffers in place. */
  method Reproduce(s: Settings, a: array<byte>, b: array<byte>, src: Source) returns (m: Mating, src': Source)
    requires s.Rates()
    requires a != b
    modifies a, b
    ensures (m, a[..], b[..], src') == ReproduceSpec(s, old(a[..]), old(b[..]), src)
  {
    var length := a.Length;
    if length != b.Length || length != Len(s.problem) {
      return Mismatch, src;
    }
    var coin := src.GenBool(s.skip);
    src' := coin.1;
    if coin.0 {
      return Skipped, src';
    }
    var chosen := Points(s.sex, length, src');
    if chosen.None? {
      return NoPoints, src';
    }
    var points := chosen.value.0;
    src' := chosen.value.1;
    Crossover(a, b, points);
    src' := Mutate(s.mutationRate, s.forceMutation, a, src');
    src' := Mutate(s.mutationRate, s.forceMutation, b, src');
    m := Crossed(points);
  }

  // -------------------------------------------------------------- selection

  /** The fold of `select_genitors` adding up the `Valid` scores. */
  function ValidSum(pop: seq<Genotype>): real
  {
    if pop == [] then 0.0
    else (match pop[0].fitness case Valid(x) => x case Invalid => 0.0) + ValidSum(pop[1..])
  }

  /** The `WeightedIndex` weight: the score clamped from below at 0.01, or 0.01 for `Invalid`. */
  function Weight(f: Fitness): (w: real)
    ensures w >= 0.01
    ensures f.Valid? && f.score >= 0.01 ==> w == f.score
  {
    match f
    case Valid(x) => if x < 0.01 then 0.01 else x
    case Invalid => 0.01
  }

  /** The weights handed to `WeightedIndex::new`, one per genotype. */
  function Weights(pop: seq<Genotype>): (ws: seq<real>)
    ensures |ws| == |pop|
    ensures NonNegative(ws)
    ensures pop != [] ==> Total(ws) > 0.0
  {
    if pop == [] then []
    else
      var rest := Weights(pop[1..]);
      TotalNonNegative(rest);
      assert ([Weight(pop[0].fitness)] + rest)[1..] == rest;
      [Weight(pop[0].fitness)] + rest
  }

  /**
   * The average the `Remainder` arm divides by: the `Valid` scores over the
   * population size, or 1e-13 when they do not add up to a positive sum.
   */
  function RemainderAverage(pop: seq<Genotype>): (avg: real)
    requires |pop| > 0
    ensures avg > 0.0
  {
    var sum := ValidSum(pop);
    if sum > 0.0 then sum / |pop| as real else 0.0000000000001
  }

  /**
   * The `while f > 0.0` loop for genotype `g` with ratio `f`: a copy for each
   * whole unit above 1, then one coin with what is left; it stops as soon as
   * the pool is full. So `g` gets `floor(f)` copies, or one more when the coin
   * fires, as far as there is room.
   */
  function Copies(g: Genotype, f: real, pool: seq<Genotype>, cap: nat, src: Source): (r: (seq<Genotype>, Source))
    requires |pool| <= cap
    ensures |pool| <= |r.0| <= cap && r.0[..|pool|] == pool
    ensures forall i :: |pool| <= i < |r.0| ==> r.0[i] == g
    ensures f > 0.0 ==> Min(cap - |pool|, f.Floor) <= |r.0| - |pool| <= f.Floor + 1
    ensures f <= 0.0 ==> r == (pool, src)
    decreases if f <= 0.0 then 0 else f.Floor + 1
  {
    if f <= 0.0 || |pool| == cap then (pool, src)
    else if f > 1.0 then
      assert (f - 1.0).Floor == f.Floor - 1;
      Copies(g, f - 1.0, pool + [g], cap, src)
    else
      var (coin, s) := src.GenBool(f);
      (if coin then pool + [g] else pool, s)
  }

  /**
   * One pass of `for genotype in &self.population` over the first `k`
   * genotypes: a `Valid` one is given its copies for ratio `score / avg`, an
   * `Invalid` one nothing.
   */
  function Pass(pop: seq<Genotype>, avg: real, pool: seq<Genotype>, cap: nat, k: nat, src: Source): (r: (seq<Genotype>, Source))
    requires k <= |pop| && |pool| <= cap && avg > 0.0
    ensures |pool| <= |r.0| <= cap && r.0[..|pool|] == pool
    ensures forall i :: |pool| <= i < |r.0| ==> r.0[i] in pop[..k] && r.0[i].fitness.Valid?
  {
    if k == 0 then (pool, src)
    else
      var (p, s) := Pass(pop, avg, pool, cap, k - 1, src);
      assert pop[..k - 1] <= pop[..k];
      match pop[k - 1].fitness
      case Invalid => (p, s)
      case Valid(fit) =>
        var r := Copies(pop[k - 1], fit / avg, p, cap, s);
        assert forall i :: |pool| <= i < |r.0| ==> (i < |p| && r.0[i] == p[i]) || r.0[i] == pop[k - 1];
        r
  }

  /**
   * One turn of the outer `loop` of the `Remainder` arm: a pass, then one
   * uniformly drawn copy when the pass pushed nothing. The pool always grows,
   * and an `Invalid` genotype can only be that single fallback copy.
   */
  function RemainderRound(pop: seq<Genotype>, avg: real, pool: seq<Genotype>, cap: nat, src: Source): (r: (seq<Genotype>, Source))
    requires |pop| > 0 && |pool| < cap && avg > 0.0
    ensures |pool| < |r.0| <= cap && r.0[..|pool|] == pool
    ensures forall i :: |pool| <= i < |r.0| ==> r.0[i] in pop
    ensures forall i :: |pool| <= i < |r.0| && r.0[i].fitness.Invalid? ==>
      |r.0| == |pool| + 1 && Pass(pop, avg, pool, cap, |pop|, src).0 == pool
  {
    var (p, s) := Pass(pop, avg, pool, cap, |pop|, src);
    assert pop[..|pop|] == pop;
    if |p| == |pool| then
      assert p == pool;
      var (i, s') := s.GenRange(0, |pop|);
      (pool + [pop[i]], s')
    else (p, s)
  }

  /** The `Remainder` arm: rounds until the pool is full. */
  function RemainderFill(pop: seq<Genotype>, avg: real, pool: seq<Genotype>, cap: nat, src: Source): (r: (seq<Genotype>, Source))
    requires |pop| > 0 && |pool| < cap && avg > 0.0
    ensures |r.0| == cap && r.0[..|pool|] == pool
    ensures forall i :: |pool| <= i < |r.0| ==> r.0[i] in pop
    decreases cap - |pool|
  {
    var (p, s) := RemainderRound(pop, avg, pool, cap, src);
    if |p| == cap then (p, s)
    else
      var r := RemainderFill(pop, avg, p, cap, s);
      assert r.0[..|p|][..|pool|] == pool;
      r
  }

  /** When no `Valid` score reaches `avg`, the scores add up to less than `avg` per genotype. */
  lemma {:induction false} SumBelow(pop: seq<Genotype>, avg: real)
    requires avg > 0.0 && |pop| > 0
    requires forall i :: 0 <= i < |pop| && pop[i].fitness.Valid? ==> pop[i].fitness.score < avg
    ensures ValidSum(pop) < |pop| as real * avg
  {
    if |pop| > 1 {
      var rest := pop[1..];
      assert forall i :: 0 <= i < |rest| ==> rest[i] == pop[i + 1];
      SumBelow(rest, avg);
    }
  }

  /** With a positive sum of scores, some `Valid` genotype scores at least the average. */
  lemma AboveAverage(pop: seq<Genotype>) returns (j: nat)
    requires |pop| > 0 && ValidSum(pop) > 0.0
    ensures j < |pop| && pop[j].fitness.Valid? && pop[j].fitness.score / RemainderAverage(pop) >= 1.0
  {
    var avg := RemainderAverage(pop);
    assert avg * |pop| as real == ValidSum(pop);
    if forall i :: 0 <= i < |pop| && pop[i].fitness.Valid? ==> pop[i].fitness.score < avg {
      SumBelow(pop, avg);
      assert false;
    }
    j :| 0 <= j < |pop| && pop[j].fitness.Valid? && pop[j].fitness.score >= avg;
    RatioAtLeastOne(pop[j].fitness.score, avg);
  }

  /** A number at least a positive divisor is at least 1 times it. */
  lemma RatioAtLeastOne(x: real, y: real)
    requires y > 0.0 && x >= y
    ensures x / y >= 1.0
  {
    var q := x / y;
    assert q * y == x;
  }

  /** A pass into a pool with room pushes something once it meets a ratio of at least 1. */
  lemma {:induction false} PassPushes(pop: seq<Genotype>, avg: real, pool: seq<Genotype>, cap: nat, k: nat, src: Source, j: nat)
    requires k <= |pop| && |pool| < cap && avg > 0.0
    requires j < k && pop[j].fitness.Valid? && pop[j].fitness.score / avg >= 1.0
    ensures |Pass(pop, avg, pool, cap, k, src).0| > |pool|
  {
    var (p, s) := Pass(pop, avg, pool, cap, k - 1, src);
    if j < k - 1 {
      PassPushes(pop, avg, pool, cap, k - 1, src, j);
    } else {
      var f := pop[j].fitness.score / avg;
      assert f.Floor >= 1;
      assert Pass(pop, avg, pool, cap, k, src) == Copies(pop[j], f, p, cap, s);
    }
  }

  /** Every genotype of `s` from position `from` on is `Valid`. */
  ghost predicate ValidFrom(s: seq<Genotype>, from: nat)
  {
    forall i :: from <= i < |s| ==> s[i].fitness.Valid?
  }

  /** A valid stretch after a prefix that is valid from `from` is valid from `from`. */
  lemma ValidFromJoin(s: seq<Genotype>, pre: seq<Genotype>, from: nat)
    requires from <= |pre| <= |s| && s[..|pre|] == pre
    requires ValidFrom(pre, from) && ValidFrom(s, |pre|)
    ensures ValidFrom(s, from)
  {
    forall i | from <= i < |s|
      ensures s[i].fitness.Valid?
    {
      if i < |pre| {
        assert s[i] == s[..|pre|][i];
      }
    }
  }

  /** A round is its pass, followed by the fallback draw exactly when the pass pushed nothing. */
  lemma RoundOfPass(pop: seq<Genotype>, avg: real, pool: seq<Genotype>, cap: nat, src: Source, passed: (seq<Genotype>, Source))
    requires |pop| > 0 && |pool| < cap && avg > 0.0
    requires passed == Pass(pop, avg, pool, cap, |pop|, src)
    ensures RemainderRound(pop, avg, pool, cap, src) ==
      if |passed.0| == |pool| then
        var (i, s) := passed.1.GenRange(0, |pop|);
        (pool + [pop[i]], s)
      else passed
  {
  }

  /** One unfolding of `RemainderFill`: a round, then the rest from where it leaves the pool. */
  lemma FillStep(pop: seq<Genotype>, avg: real, pool: seq<Genotype>, cap: nat, src: Source)
    requires |pop| > 0 && |pool| < cap && avg > 0.0
    ensures var round := RemainderRound(pop, avg, pool, cap, src);
      RemainderFill(pop, avg, pool, cap, src) ==
        if |round.0| == cap then round else RemainderFill(pop, avg, round.0, cap, round.1)
  {
  }

  /**
   * With a positive sum of scores every pass pushes something, so the
   * fallback draw never happens and no `Invalid` genotype enters the pool.
   */
  lemma {:induction false} RemainderValidOnly(pop: seq<Genotype>, pool: seq<Genotype>, cap: nat, src: Source)
    requires |pop| > 0 && |pool| < cap && ValidSum(pop) > 0.0
    ensures ValidFrom(RemainderFill(pop, RemainderAverage(pop), pool, cap, src).0, |pool|)
    decreases cap - |pool|
  {
    var avg := RemainderAverage(pop);
    var j := AboveAverage(pop);
    PassPushes(pop, avg, pool, cap, |pop|, src, j);
    var round := RemainderRound(pop, avg, pool, cap, src);
    assert ValidFrom(round.0, |pool|);
    FillStep(pop, avg, pool, cap, src);
    if |round.0| < cap {
      RemainderValidOnly(pop, round.0, cap, round.1);
      ValidFromJoin(RemainderFill(pop, avg, round.0, cap, round.1).0, round.0, |pool|);
    }
  }

  /** The size of the mating pool each selection method fills from `p` genotypes. */
  function PoolSize(method_: SelectionMethod, p: nat, capacity: nat): nat
  {
    match method_
    case Equal => Min(capacity, 2 * p + 1)
    case Remainder => capacity
    case Replacement => 2 * p
  }

  /** The matching genes of two genotypes, pairing them as `zip` does. */
  function Matches(x: seq<byte>, y: seq<byte>): (n: nat)
    ensures n <= |x| && n <= |y|
  {
    if x == [] || y == [] then 0 else (if x[0] == y[0] then 1 else 0) + Matches(x[1..], y[1..])
  }

  /** The matches of the first `pairs` pairs `(0, 1), (2, 3), …` of the pool. */
  function PairMatches(pool: seq<Genotype>, pairs: nat): nat
    requires 2 * pairs <= |pool|
  {
    if pairs == 0 then 0
    else
      var k := pairs - 1;
      PairMatches(pool, k) + Matches(pool[2 * k].genes, pool[2 * k + 1].genes)
  }

  /**
   * `detected_crowding`: the average of the matching genes over the pairs
   * `(0, 1), (2, 3), …` of the pool, in integer arithmetic, above
   * `floor(0.8 * len)` of the first genotype. An empty pool underflows
   * `len - 1` and a pool of one divides by zero; both panic.
   */
  function Crowded(pool: seq<Genotype>): (r: Result<bool, string>)
    ensures r.Err? <==> |pool| < 2
  {
    if |pool| == 0 then Err("attempt to subtract with overflow")
    else if |pool| == 1 then Err("attempt to divide by zero")
    else Ok(PairMatches(pool, |pool| / 2) / (|pool| / 2) > (4 * |pool[0].genes|) / 5)
  }

  lemma {:induction false} PairMatchesIdentical(pool: seq<Genotype>, pairs: nat, g: seq<byte>)
    requires 2 * pairs <= |pool|
    requires forall k :: 0 <= k < |pool| ==> pool[k].genes == g
    ensures PairMatches(pool, pairs) == pairs * |g|
  {
    if pairs > 0 {
      PairMatchesIdentical(pool, pairs - 1, g);
      MatchesSelf(g);
    }
  }

  lemma {:induction false} MatchesSelf(g: seq<byte>)
    ensures Matches(g, g) == |g|
  {
    if g != [] {
      MatchesSelf(g[1..]);
    }
  }

  /** A pool of copies of one non-empty genotype is crowded. */
  lemma IdenticalPoolIsCrowded(pool: seq<Genotype>, g: seq<byte>)
    requires |pool| >= 2 && |g| >= 1
    requires forall k :: 0 <= k < |pool| ==> pool[k].genes == g
    ensures Crowded(pool) == Ok(true)
  {
    var pairs := |pool| / 2;
    PairMatchesIdentical(pool, pairs, g);
    MulDiv(|g|, pairs);
    assert pool[0].genes == g;
    assert (4 * |g|) / 5 < |g|;
  }

  /** Division undoes multiplication by a positive number. */
  lemma MulDiv(a: nat, b: nat)
    requires b > 0
    ensures (b * a) / b == a
  {
    var q := (b * a) / b;
    var r := (b * a) % b;
    assert b * a == b * q + r && 0 <= r < b;
    assert b * (a - q) == r;
    if a - q >= 1 {
      MulAtLeast(a - q, b);
    } else if a - q <= -1 {
      MulAtLeast(q - a, b);
    }
  }

  lemma MulAtLeast(x: int, b: int)
    requires b > 0 && x >= 1
    ensures b * x >= b
  {
    assert b * x == b * (x - 1) + b;
    assert b * (x - 1) >= 0;
  }

  lemma {:induction false} MatchesNone(x: seq<byte>, y: seq<byte>)
    requires forall j :: 0 <= j < |x| && j < |y| ==> x[j] != y[j]
    ensures Matches(x, y) == 0
  {
    if x != [] && y != [] {
      MatchesNone(x[1..], y[1..]);
    }
  }

  lemma {:induction false} PairMatchesNone(pool: seq<Genotype>, pairs: nat)
    requires 2 * pairs <= |pool|
    requires forall k, j :: 0 <= k < pairs && 0 <= j < |pool[2 * k].genes| && j < |pool[2 * k + 1].genes| ==>
      pool[2 * k].genes[j] != pool[2 * k + 1].genes[j]
    ensures PairMatches(pool, pairs) == 0
  {
    if pairs > 0 {
      var k := pairs - 1;
      PairMatchesNone(pool, k);
      forall j | 0 <= j < |pool[2 * k].genes| && j < |pool[2 * k + 1].genes|
        ensures pool[2 * k].genes[j] != pool[2 * k + 1].genes[j]
      {
      }
      MatchesNone(pool[2 * k].genes, pool[2 * k + 1].genes);
    }
  }

  /** A pool whose partners differ at every gene is not crowded. */
  lemma DisjointPoolNotCrowded(pool: seq<Genotype>)
    requires |pool| >= 2
    requires forall k, j :: 0 <= k < |pool| / 2 && 0 <= j < |pool[2 * k].genes| && j < |pool[2 * k + 1].genes| ==>
      pool[2 * k].genes[j] != pool[2 * k + 1].genes[j]
    ensures Crowded(pool) == Ok(false)
  {
    PairMatchesNone(pool, |pool| / 2);
  }

  /**
   * The index `max_by` settles on among the first `n` genotypes: a fittest
   * one, and on ties the last, so every later genotype is strictly less fit.
   */
  function LastFittest(pop: seq<Genotype>, n: nat): (i: nat)
    requires 1 <= n <= |pop|
    ensures i < n
    ensures forall j :: 0 <= j < n ==> AtMost(pop[j].fitness, pop[i].fitness)
    ensures forall j :: i < j < n ==> Compare(pop[j].fitness, pop[i].fitness) == Less
  {
    if n == 1 then 0
    else
      var i := LastFittest(pop, n - 1);
      if Compare(pop[i].fitness, pop[n - 1].fitness) == Greater then i
      else
        assert forall j :: 0 <= j < n - 1 ==> AtMost(pop[j].fitness, pop[n - 1].fitness) by {
          forall j | 0 <= j < n - 1 ensures AtMost(pop[j].fitness, pop[n - 1].fitness) {
            CompareIsTotalOrder(pop[j].fitness, pop[i].fitness, pop[n - 1].fitness);
          }
        }
        n - 1
  }

  // --------------------------------------------------------------- generation

  /** Every genotype has `length` genes. */
  predicate WellFormed(pop: seq<Genotype>, length: nat)
  {
    forall g :: g in pop ==> |g.genes| == length
  }

  /** The fitness values recorded in a pool. */
  function FitnessesOf(pool: seq<Genotype>): set<Fitness>
  {
    set g | g in pool :: g.fitness
  }

  /** How a generation step ended: normally, or with a panic. */
  datatype Step = Done | Panicked(reason: string)

  /**
   * Where the refill loop of `generate_generation` stops: with the
   * population full (`finished`), or at the panic of a `reproduce` call,
   * with the population as it was then; and the draws that are left.
   */
  datatype Bred = Bred(finished: bool, population: seq<Genotype>, src: Source)

  /**
   * One round of the refill loop: two copies drawn from the pool with
   * `gen_range(0..len)` reproduce; `ok` is false where `reproduce` panics.
   * Each child keeps the fitness of the parent it was copied from.
   */
  function Mate(s: Settings, pool: seq<Genotype>, src: Source): (r: (bool, Genotype, Genotype, Source))
    requires s.Rates() && |pool| >= 1
    ensures r.0 ==> |r.1.genes| == |r.2.genes| == Len(s.problem)
    ensures r.0 ==> r.1.fitness in FitnessesOf(pool) && r.2.fitness in FitnessesOf(pool)
    ensures !r.0 && WellFormed(pool, Len(s.problem)) ==> s.sex == Uniform && Len(s.problem) <= 3
  {
    var (i, s1) := src.GenRange(0, |pool|);
    var (j, s2) := s1.GenRange(0, |pool|);
    assert pool[i] in pool && pool[j] in pool;
    var (m, a, b, s3) := ReproduceSpec(s, pool[i].genes, pool[j].genes, s2);
    (!m.Mismatch? && !m.NoPoints?, Genotype(pool[i].fitness, a), Genotype(pool[j].fitness, b), s3)
  }

  /** The first child is pushed, the second only while there is room. */
  function Push(pop: seq<Genotype>, capacity: nat, x: Genotype, y: Genotype): (r: seq<Genotype>)
    requires |pop| < capacity
    ensures |pop| < |r| <= capacity && r[..|pop|] == pop && r[|pop|] == x
    ensures |r| == |pop| + 2 ==> r[|pop| + 1] == y
    ensures |r| == |pop| + 1 <==> |pop| + 1 == capacity
  {
    var first := pop + [x];
    if |first| < capacity then first + [y] else first
  }

  /**
   * The refill loop of `generate_generation`, continuing from the
   * population `pop`: while it is below `capacity`, a round of `Mate`
   * (whose panic ends the loop) pushes its children.
   */
  function BreedSpec(s: Settings, pool: seq<Genotype>, capacity: nat, pop: seq<Genotype>, src: Source): (r: Bred)
    requires s.Rates() && |pool| >= 1
    ensures |pop| <= |r.population| && r.population[..|pop|] == pop
    ensures r.finished && |pop| <= capacity ==> |r.population| == capacity
    ensures !r.finished ==> |r.population| < capacity
    decreases capacity - |pop|
  {
    if |pop| >= capacity then Bred(true, pop, src)
    else
      var (ok, x, y, s3) := Mate(s, pool, src);
      if !ok then Bred(false, pop, s3)
      else
        var next := Push(pop, capacity, x, y);
        var r := BreedSpec(s, pool, capacity, next, s3);
        assert r.population[..|pop|] == r.population[..|next|][..|pop|];
        r
  }

  /** A genotype of the problem's length whose fitness is recorded in the pool. */
  predicate Descends(s: Settings, pool: seq<Genotype>, g: Genotype)
  {
    |g.genes| == Len(s.problem) && g.fitness in FitnessesOf(pool)
  }

  /**
   * The refill panics only where `reproduce` finds no crossover points,
   * and every genotype it adds has the problem's length and a fitness
   * recorded in the pool.
   */
  lemma {:induction false} BreedKeeps(s: Settings, pool: seq<Genotype>, capacity: nat, pop: seq<Genotype>, src: Source)
    requires s.Rates() && |pool| >= 1 && WellFormed(pool, Len(s.problem))
    ensures var r := BreedSpec(s, pool, capacity, pop, src);
      (!r.finished ==> s.sex == Uniform && Len(s.problem) <= 3) &&
      forall k :: |pop| <= k < |r.population| ==> Descends(s, pool, r.population[k])
    decreases capacity - |pop|
  {
    if |pop| < capacity {
      var (ok, x, y, s3) := Mate(s, pool, src);
      if ok {
        var next := Push(pop, capacity, x, y);
        BreedKeeps(s, pool, capacity, next, s3);
        var r := BreedSpec(s, pool, capacity, next, s3);
        assert BreedSpec(s, pool, capacity, pop, src) == r;
        assert Descends(s, pool, x) && Descends(s, pool, y);
        forall k | |pop| <= k < |next|
          ensures Descends(s, pool, r.population[k])
        {
          assert r.population[k] == r.population[..|next|][k] == next[k];
          if k == |pop| {
            assert next[k] == x;
          } else {
            assert next[k] == y;
          }
        }
      }
    }
  }

  /** A population of descendants is well formed, with fitnesses from the pool. */
  lemma Descended(s: Settings, pool: seq<Genotype>, pop: seq<Genotype>)
    requires forall k :: 0 <= k < |pop| ==> Descends(s, pool, pop[k])
    ensures WellFormed(pop, Len(s.problem))
    ensures forall g :: g in pop ==> g.fitness in FitnessesOf(pool)
  {
    forall g | g in pop
      ensures Descends(s, pool, g)
    {
      var k :| 0 <= k < |pop| && pop[k] == g;
    }
  }

  /**
   * With `skip` 1 every pair propagates its parents unchanged, so the
   * refill always finishes and only copies pool members.
   */
  lemma {:induction false} BreedSkipCopies(s: Settings, pool: seq<Genotype>, capacity: nat, pop: seq<Genotype>, src: Source)
    requires s.Rates() && s.skip == 1.0 && |pool| >= 1 && WellFormed(pool, Len(s.problem))
    ensures BreedSpec(s, pool, capacity, pop, src).finished
    ensures forall k :: |pop| <= k < |BreedSpec(s, pool, capacity, pop, src).population| ==>
      BreedSpec(s, pool, capacity, pop, src).population[k] in pool
    decreases capacity - |pop|
  {
    if |pop| < capacity {
      var (ok, x, y, s3) := Mate(s, pool, src);
      MateSkipped(s, pool, src);
      var next := Push(pop, capacity, x, y);
      BreedSkipCopies(s, pool, capacity, next, s3);
      var r := BreedSpec(s, pool, capacity, next, s3);
      assert BreedSpec(s, pool, capacity, pop, src) == r;
      forall k | |pop| <= k < |next|
        ensures r.population[k] in pool
      {
        assert r.population[k] == r.population[..|next|][k] == next[k];
        if k == |pop| {
          assert next[k] == x;
        } else {
          assert next[k] == y;
        }
      }
    }
  }

  /** A round whose skip coin always fires copies two pool members. */
  lemma MateSkipped(s: Settings, pool: seq<Genotype>, src: Source)
    requires s.Rates() && s.skip == 1.0 && |pool| >= 1 && WellFormed(pool, Len(s.problem))
    ensures Mate(s, pool, src).0 && Mate(s, pool, src).1 in pool && Mate(s, pool, src).2 in pool
  {
    var (i, s1) := src.GenRange(0, |pool|);
    var (j, s2) := s1.GenRange(0, |pool|);
    assert pool[i] in pool && pool[j] in pool;
  }

  /** `struct Generation` with the knapsack as its problem. */
  class Generation {
    const detectCrowding: real
    const forceMutation: bool
    const skip: real
    const problem: Knapsack
    const selection: SelectionMethod
    const sex: SexMethod
    /** `population.capacity()`, fixed by `Vec::with_capacity`. */
    const populationCapacity: nat
    /** `intermediate.capacity()`, fixed by `Vec::with_capacity`. */
    const intermediateCapacity: nat
    var population: seq<Genotype>
    var intermediate: seq<Genotype>
    var mutationRate: real

    /** The probabilities are probabilities and the pool can hold something. */
    ghost predicate Valid()
      reads this
    {
      0.0 <= skip <= 1.0 && 0.0 <= mutationRate <= 1.0 && intermediateCapacity >= 1
    }

    /** The struct literal of `Generation::from`, before any genitor is added. */
    constructor (detectCrowding: real, forceMutation: bool, skip: real, mutationRate: real, problem: Knapsack,
                 selection: SelectionMethod, sex: SexMethod, populationCapacity: nat, intermediateCapacity: nat)
      requires 0.0 <= skip <= 1.0 && 0.0 <= mutationRate <= 1.0 && intermediateCapacity >= 1
      ensures Valid()
      ensures this.detectCrowding == detectCrowding && this.forceMutation == forceMutation && this.skip == skip
      ensures this.mutationRate == mutationRate && this.problem == problem && this.selection == selection
      ensures this.sex == sex && this.populationCapacity == populationCapacity
      ensures this.intermediateCapacity == intermediateCapacity
      ensures population == [] && intermediate == []
    {
      this.detectCrowding := detectCrowding;
      this.forceMutation := forceMutation;
      this.skip := skip;
      this.mutationRate := mutationRate;
      this.problem := problem;
      this.selection := selection;
      this.sex := sex;
      this.populationCapacity := populationCapacity;
      this.intermediateCapacity := intermediateCapacity;
      population := [];
      intermediate := [];
    }

    /** What `reproduce` reads from the generation. */
    function ReproduceSettings(): Settings
      reads this
    {
      Settings(skip, sex, mutationRate, forceMutation, problem)
    }

    /**
     * `Generation::best`: `None` for an empty population, otherwise a
     * fittest genotype, the last of them on ties.
     */
    function Best(): (r: Option<Genotype>)
      reads this
      ensures r.None? <==> |population| == 0
      ensures r.Some? ==> r.value in population
      ensures r.Some? ==> forall g :: g in population ==> AtMost(g.fitness, r.value.fitness)
    {
      if |population| == 0 then None else Some(population[LastFittest(population, |population|)])
    }

    /** `detected_crowding` on the current mating pool. */
    function DetectedCrowding(): (r: Result<bool, string>)
      reads this
      ensures r.Err? <==> |intermediate| < 2
    {
      Crowded(intermediate)
    }

    /**
     * `Generation::generate_genitors`: tops the population up to its
     * capacity. The problem's `generate_genotype` is not part of this
     * model; the genotypes it would make are the input `made`.
     */
    method GenerateGenitors(made: nat -> Genotype)
      modifies this
      ensures |population| == if |old(population)| < populationCapacity then populationCapacity else |old(population)|
      ensures population[..|old(population)|] == old(population)
      ensures forall k :: |old(population)| <= k < |population| ==> population[k] == made(k - |old(population)|)
      ensures intermediate == old(intermediate) && mutationRate == old(mutationRate)
    {
      var start := |population|;
      while |population| < populationCapacity
        invariant start <= |population| && (|population| <= populationCapacity || |population| == start)
        invariant population[..start] == old(population)
        invariant forall k :: start <= k < |population| ==> population[k] == made(k - start)
        invariant intermediate == old(intermediate) && mutationRate == old(mutationRate)
        decreases populationCapacity - |population|
      {
        population := population + [made(|population| - start)];
      }
    }

    /**
     * `Generation::select_genitors`: sorts the population fittest first,
     * refills the mating pool with copies of its genotypes by the
     * selection method, and sorts the pool fittest first. An empty
     * population panics (`ok` false) after the sort and the clear.
     */
    method SelectGenitors(src: Source) returns (ok: bool, src': Source)
      requires Valid()
      modifies this`population, this`intermediate
      ensures population == SortFittestFirst(old(population))
      ensures ok <==> |population| > 0
      ensures !ok ==> intermediate == []
      ensures ok ==> |intermediate| == PoolSize(selection, |population|, intermediateCapacity)
      ensures forall g :: g in intermediate ==> g in population
      ensures forall i, j :: 0 <= i < j < |intermediate| ==> AtMost(intermediate[j].fitness, intermediate[i].fitness)
      ensures ok && selection == Remainder ==>
        var fill := RemainderFill(population, RemainderAverage(population), [], intermediateCapacity, src);
        intermediate == SortFittestFirst(fill.0) && src' == fill.1
      ensures ok && selection == Remainder && ValidSum(population) > 0.0 ==>
        forall g :: g in intermediate ==> g.fitness.Valid?
    {
      src' := src;
      population := SortFittestFirst(population);
      intermediate := [];
      if |population| == 0 {
        return false, src';
      }
      ok := true;
      match selection {
        case Equal => src' := FillEqual(src');
        case Remainder => src' := FillRemainder(src');
        case Replacement => src' := FillReplacement(src');
      }
      intermediate := SortFittestFirst(intermediate);
    }

    /**
     * The `Equal` arm: `limit` is twice the population, because the pool
     * was just cleared; one uniformly drawn copy per turn of
     * `for n in 0..capacity`, stopping after the turn with `n >= limit`.
     */
    method FillEqual(src: Source) returns (src': Source)
      requires |population| > 0 && intermediate == []
      modifies this`intermediate
      ensures |intermediate| == Min(intermediateCapacity, 2 * |population| + 1)
      ensures forall g :: g in intermediate ==> g in population
    {
      src' := src;
      var limit := if |intermediate| == 0 then |population| * 2 else |intermediate|;
      var n := 0;
      while n < intermediateCapacity
        invariant n <= intermediateCapacity && n <= limit
        invariant |intermediate| == n
        invariant forall g :: g in intermediate ==> g in population
      {
        var draw := src'.GenRange(0, |population|);
        src' := draw.1;
        intermediate := intermediate + [population[draw.0]];
        if n >= limit {
          break;
        }
        n := n + 1;
      }
    }

    /**
     * The `Remainder` arm: each pass gives a valid genotype `floor(f)`
     * copies plus one more with probability `frac(f)`, where `f` is its
     * score over the average (1e-13 when the scores do not add up to a
     * positive sum); invalid genotypes get nothing; nothing is pushed into
     * a full pool, and a pass that pushed nothing pushes one uniformly drawn
     * copy. Passes repeat until the pool is full.
     */
    method FillRemainder(src: Source) returns (src': Source)
      requires |population| > 0 && intermediate == [] && intermediateCapacity >= 1
      modifies this`intermediate
      ensures (intermediate, src') == RemainderFill(population, RemainderAverage(population), [], intermediateCapacity, src)
      ensures |intermediate| == intermediateCapacity
      ensures forall g :: g in intermediate ==> g in population
      ensures ValidSum(population) > 0.0 ==> forall g :: g in intermediate ==> g.fitness.Valid?
    {
      src' := src;
      var avg := RemainderAverage(population);
      while true
        invariant |intermediate| < intermediateCapacity
        invariant RemainderFill(population, avg, [], intermediateCapacity, src) ==
          RemainderFill(population, avg, intermediate, intermediateCapacity, src')
        decreases intermediateCapacity - |intermediate|
      {
        ghost var pool := intermediate;
        ghost var start := src';
        var pushed;
        pushed, src' := RemainderPass(avg, src');
        ghost var passed := (intermediate, src');
        if pushed == 0 {
          assert intermediate == pool;
          var draw := src'.GenRange(0, |population|);
          src' := draw.1;
          intermediate := intermediate + [population[draw.0]];
          assert (intermediate, src') == (pool + [population[draw.0]], draw.1);
        }
        RoundOfPass(population, avg, pool, intermediateCapacity, start, passed);
        assert (intermediate, src') == RemainderRound(population, avg, pool, intermediateCapacity, start);
        FillStep(population, avg, pool, intermediateCapacity, start);
        if |intermediate| == intermediateCapacity {
          break;
        }
      }
      if ValidSum(population) > 0.0 {
        RemainderValidOnly(population, [], intermediateCapacity, src);
        assert ValidFrom(intermediate, 0);
      }
    }

    /** One pass of `for genotype in &self.population` in the `Remainder` arm, counting what it pushed. */
    method RemainderPass(avg: real, src: Source) returns (pushed: nat, src': Source)
      requires avg > 0.0 && |intermediate| <= intermediateCapacity
      modifies this`intermediate
      ensures (intermediate, src') == Pass(population, avg, old(intermediate), intermediateCapacity, |population|, src)
      ensures pushed == |intermediate| - |old(intermediate)|
    {
      src' := src;
      pushed := 0;
      for k := 0 to |population|
        invariant |old(intermediate)| + pushed == |intermediate|
        invariant (intermediate, src') == Pass(population, avg, old(intermediate), intermediateCapacity, k, src)
      {
        match population[k].fitness
        case Valid(fit) =>
          var n;
          n, src' := Copy(k, fit / avg, src');
          pushed := pushed + n;
        case Invalid =>
      }
    }

    /**
     * The `while f > 0.0` loop for the `k`-th genotype with ratio `f`
     * (`f -= 1.0` after each whole copy), counting what it pushed.
     */
    method Copy(k: nat, ratio: real, src: Source) returns (pushed: nat, src': Source)
      requires k < |population| && |intermediate| <= intermediateCapacity
      modifies this`intermediate
      ensures (intermediate, src') == Copies(population[k], ratio, old(intermediate), intermediateCapacity, src)
      ensures pushed == |intermediate| - |old(intermediate)|
    {
      src' := src;
      pushed := 0;
      var f := ratio;
      var g := population[k];
      while f > 0.0
        invariant |old(intermediate)| + pushed == |intermediate| <= intermediateCapacity
        invariant Copies(g, ratio, old(intermediate), intermediateCapacity, src) ==
          Copies(g, f, intermediate, intermediateCapacity, src')
        decreases if f <= 0.0 then 0 else f.Floor + 1
      {
        ghost var now := Copies(g, f, intermediate, intermediateCapacity, src');
        if |intermediate| == intermediateCapacity {
          assert now == (intermediate, src');
          break;
        } else if f > 1.0 {
          assert now == Copies(g, f - 1.0, intermediate + [g], intermediateCapacity, src');
          intermediate := intermediate + [g];
          pushed := pushed + 1;
          f := f - 1.0;
        } else {
          var coin := src'.GenBool(f);
          assert now == (if coin.0 then intermediate + [g] else intermediate, coin.1);
          src' := coin.1;
          if coin.0 {
            intermediate := intermediate + [g];
            pushed := pushed + 1;
          }
          f := 0.0;
        }
      }
    }

    /**
     * The `Replacement` arm: copies drawn with probability proportional to
     * `Weight` of their fitness until the pool holds twice the population.
     */
    method FillReplacement(src: Source) returns (src': Source)
      requires |population| > 0 && intermediate == []
      modifies this`intermediate
      ensures |intermediate| == 2 * |population|
      ensures forall g :: g in intermediate ==> g in population
    {
      src' := src;
      var weights := Weights(population);
      var limit := if |intermediate| < 1 then |population| * 2 else |intermediate|;
      while |intermediate| < limit
        invariant |intermediate| <= limit
        invariant forall g :: g in intermediate ==> g in population
      {
        var draw := SampleWeighted(weights, src').value;
        src' := draw.1;
        intermediate := intermediate + [population[draw.0]];
      }
    }

    /**
     * `Generation::generate_generation`. Every genotype must have the
     * problem's length, else it panics; then the pool is selected, the
     * mutation rate is raised to 0.2 for this generation when crowding
     * detection is on and the pool is crowded, and the population is
     * refilled to capacity with the children of random pairs from the pool
     * (the second child only while there is room). The children keep the
     * fitness their parents were copied with. The population ends sorted
     * fittest first, and the mutation rate is restored.
     */
    method GenerateGeneration(src: Source) returns (r: Step, src': Source)
      requires Valid()
      modifies this`population, this`intermediate, this`mutationRate
      ensures r.Done? ==> mutationRate == old(mutationRate) && |intermediate| >= 1
      ensures r.Done? ==> exists t: Source ::
        var bred := BreedSpec(BreedingSettings(old(mutationRate)), intermediate, populationCapacity, [], t);
        bred.finished && population == SortFittestFirst(bred.population) && src' == bred.src
      ensures !WellFormed(old(population), Len(problem)) ==> r.Panicked?
      ensures |old(population)| == 0 ==> r.Panicked?
      ensures detectCrowding > 0.0 && PoolSize(selection, |old(population)|, intermediateCapacity) < 2 ==> r.Panicked?
      ensures r.Panicked? ==>
        !WellFormed(old(population), Len(problem)) || |old(population)| == 0 ||
        (detectCrowding > 0.0 && PoolSize(selection, |old(population)|, intermediateCapacity) < 2) ||
        (sex == Uniform && Len(problem) <= 3)
      ensures r.Done? ==> |population| == populationCapacity
      ensures r.Done? ==> WellFormed(population, Len(problem))
      ensures r.Done? ==> forall g :: g in population ==> g.fitness in FitnessesOf(intermediate)
      ensures r.Done? ==> forall h :: h in intermediate ==> h in old(population)
      ensures r.Done? ==> forall i, j :: 0 <= i < j < |population| ==> AtMost(population[j].fitness, population[i].fitness)
    {
      src' := src;
      if !WellFormed(population, Len(problem)) {
        return Panicked("Genitor genotype is incorrect length!"), src';
      }
      var ok;
      ok, src' := SelectGenitors(src');
      if !ok {
        return Panicked("All genotypes were invalid! Either try again or supply valid ones."), src';
      }
      ghost var selected := src';
      r, src' := Regenerate(src');
    }

    /**
     * What the refill breeds with: the generation's settings, with the
     * mutation rate `rate` raised to 0.2 when crowding detection is on and
     * the pool is crowded.
     */
    function BreedingSettings(rate: real): (s: Settings)
      reads this
    {
      Settings(skip, sex, if detectCrowding > 0.0 && Crowded(intermediate) == Ok(true) then 0.2 else rate,
               forceMutation, problem)
    }

    /**
     * The rest of `generate_generation`, once the pool is selected: the
     * crowding check, which may raise the mutation rate, the refill of
     * `BreedSpec` with the rate in force, the sort, and the restored rate.
     * A panic leaves the rate as it was when the panic happened.
     */
    method Regenerate(src: Source) returns (r: Step, src': Source)
      requires Valid() && |intermediate| >= 1 && WellFormed(intermediate, Len(problem))
      modifies this`population, this`mutationRate
      ensures detectCrowding > 0.0 && |intermediate| < 2 ==>
        r == Panicked(Crowded(intermediate).error) && mutationRate == old(mutationRate)
      ensures !(detectCrowding > 0.0 && |intermediate| < 2) ==>
        var bred := BreedSpec(BreedingSettings(old(mutationRate)), intermediate, populationCapacity, [], src);
        src' == bred.src && (r.Done? <==> bred.finished) &&
        (r.Done? ==> population == SortFittestFirst(bred.population) && mutationRate == old(mutationRate)) &&
        (r.Panicked? ==> r.reason == "cannot sample empty range" &&
                         mutationRate == BreedingSettings(old(mutationRate)).mutationRate)
      ensures r.Panicked? ==> (detectCrowding > 0.0 && |intermediate| < 2) || (sex == Uniform && Len(problem) <= 3)
      ensures r.Done? ==> |population| == populationCapacity
      ensures r.Done? ==> WellFormed(population, Len(problem))
      ensures r.Done? ==> forall g :: g in population ==> g.fitness in FitnessesOf(intermediate)
      ensures r.Done? ==> forall i, j :: 0 <= i < j < |population| ==> AtMost(population[j].fitness, population[i].fitness)
    {
      src' := src;
      var old_ := mutationRate;
      if detectCrowding > 0.0 {
        var crowded := DetectedCrowding();
        if crowded.Err? {
          return Panicked(crowded.error), src';
        }
        if crowded.value {
          mutationRate := 0.2;
        }
      }
      assert ReproduceSettings() == BreedingSettings(old_);
      var ok;
      ok, src' := Breed(src');
      BreedKeeps(ReproduceSettings(), intermediate, populationCapacity, [], src);
      if !ok {
        return Panicked("cannot sample empty range"), src';
      }
      mutationRate := old_;
      Descended(BreedingSettings(old_), intermediate, population);
      population := SortFittestFirst(population);
      r := Done;
    }

    /**
     * One round of the refill loop: two copies of pool members drawn with
     * `gen_range`, cloned into fresh gene buffers that `reproduce` changes
     * in place.
     */
    method Round(src: Source) returns (ok: bool, x: Genotype, y: Genotype, src': Source)
      requires 0.0 <= skip <= 1.0 && 0.0 <= mutationRate <= 1.0 && |intermediate| >= 1
      ensures (ok, x, y, src') == Mate(ReproduceSettings(), intermediate, src)
    {
      var i := src.GenRange(0, |intermediate|);
      var j := i.1.GenRange(0, |intermediate|);
      var first := intermediate[i.0];
      var second := intermediate[j.0];
      var a := new byte[|first.genes|](k requires 0 <= k < |first.genes| => first.genes[k]);
      var b := new byte[|second.genes|](k requires 0 <= k < |second.genes| => second.genes[k]);
      assert a[..] == first.genes && b[..] == second.genes;
      var m;
      m, src' := Reproduce(ReproduceSettings(), a, b, j.1);
      ok := !m.Mismatch? && !m.NoPoints?;
      x := Genotype(first.fitness, a[..]);
      y := Genotype(second.fitness, b[..]);
    }

    /**
     * The refill loop of `generate_generation`: the population is cleared
     * and refilled as `BreedSpec` says, with the current settings.
     */
    method Breed(src: Source) returns (ok: bool, src': Source)
      requires 0.0 <= skip <= 1.0 && 0.0 <= mutationRate <= 1.0
      requires |intermediate| >= 1 && WellFormed(intermediate, Len(problem))
      modifies this`population
      ensures Bred(ok, population, src') == BreedSpec(ReproduceSettings(), intermediate, populationCapacity, [], src)
    {
      src' := src;
      population := [];
      while |population| < populationCapacity
        invariant BreedSpec(ReproduceSettings(), intermediate, populationCapacity, population, src')
               == BreedSpec(ReproduceSettings(), intermediate, populationCapacity, [], src)
        decreases populationCapacity - |population|
      {
        ghost var pop := population;
        var ok', x, y;
        ok', x, y, src' := Round(src');
        if !ok' {
          return false, src';
        }
        population := population + [x];
        if |population| < populationCapacity {
          population := population + [y];
        }
        assert population == Push(pop, populationCapacity, x, y);
      }
      ok := true;
    }
  }
}
