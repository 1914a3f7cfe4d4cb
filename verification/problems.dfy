/**
 * The knapsack problem of the generational engine (genetic/src/problems.rs):
 * a genotype is a string of `'0'`/`'1'` bytes choosing items, its fitness
 * is a squashed value ratio or `Invalid` when it is too heavy, mutation
 * rewrites genes one coin at a time, and the problem is read from a CSV
 * file of `id, weight, value` lines with a `count, max_weight` header.
 */
module KnapsackProblem {
  import opened Wrappers
  import opened Text
  import opened Draws
  import opened GeneticTypes

  /** The gene bytes `b'0'` and `b'1'`. */
  const ZERO: byte := 48
  const ONE: byte := 49

  /**
   * `struct Knapsack`. Its `alphabet` field is always `vec![b'0', b'1']`,
   * which `new`, the only constructor, puts there; the model keeps it as
   * the constant `ALPHABET`.
   */
  datatype Knapsack = Knapsack(items: seq<(nat, nat)>, maxWeight: nat)

  const ALPHABET: seq<byte> := [ZERO, ONE]

  /** `Knapsack::alphabet`. */
  function Alphabet(k: Knapsack): (r: seq<byte>)
    ensures |r| == 2 && r[0] != r[1]
    ensures forall c :: c in r <==> c == ZERO || c == ONE
  {
    ALPHABET
  }

  /** `Knapsack::len`: one gene per item. */
  function Len(k: Knapsack): (n: nat)
    ensures n == |k.items|
  {
    |k.items|
  }

  /**
   * Total weight and value of the items whose gene is `one` (`b'1'` here,
   * `'1'` in the string-based algorithm), pairing items with genes as
   * `zip` does, so the shorter of the two decides.
   */
  function Totals<T(==)>(items: seq<(nat, nat)>, genes: seq<T>, one: T): (nat, nat)
  {
    if items == [] || genes == [] then (0, 0)
    else
      var (w, v) := Totals(items[1..], genes[1..], one);
      if genes[0] == one then (items[0].0 + w, items[0].1 + v) else (w, v)
  }

  /** Genes and items beyond the shorter of the two are ignored. */
  lemma {:induction false} TotalsTruncate<T>(items: seq<(nat, nat)>, genes: seq<T>, one: T, n: nat)
    requires n >= |items| || n >= |genes|
    ensures Totals(items, genes, one) == Totals(items[..Min(n, |items|)], genes[..Min(n, |genes|)], one)
  {
    if items != [] && genes != [] {
      assert items[..Min(n, |items|)][1..] == items[1..][..Min(n - 1, |items| - 1)];
      assert genes[..Min(n, |genes|)][1..] == genes[1..][..Min(n - 1, |genes| - 1)];
      TotalsTruncate(items[1..], genes[1..], one, n - 1);
    }
  }

  function Min(a: int, b: int): int { if a < b then a else b }

  /** Switching gene `i` on adds exactly item `i` to both totals. */
  lemma {:induction false} TotalsSelect<T>(items: seq<(nat, nat)>, genes: seq<T>, one: T, i: nat)
    requires i < |items| && i < |genes|
    requires genes[i] != one
    ensures Totals(items, genes[i := one], one).0 == Totals(items, genes, one).0 + items[i].0
    ensures Totals(items, genes[i := one], one).1 == Totals(items, genes, one).1 + items[i].1
  {
    if i > 0 {
      assert genes[i := one][1..] == genes[1..][i - 1 := one];
      TotalsSelect(items[1..], genes[1..], one, i - 1);
    } else {
      assert genes[i := one][1..] == genes[1..];
    }
  }

  /** With no gene on, nothing is packed. */
  lemma {:induction false} TotalsEmptySelection<T>(items: seq<(nat, nat)>, genes: seq<T>, one: T)
    requires forall k :: 0 <= k < |genes| ==> genes[k] != one
    ensures Totals(items, genes, one) == (0, 0)
  {
    if items != [] && genes != [] {
      TotalsEmptySelection(items[1..], genes[1..], one);
    }
  }

  /** The ratio `value / max_weight` squashed into [0, 1) by `r / (1 + r)`. */
  function Squash(value: nat, maxWeight: nat): (s: real)
    requires maxWeight > 0
    ensures 0.0 <= s < 1.0
  {
    var r := value as real / maxWeight as real;
    SquashRange(value as real, maxWeight as real);
    r / (1.0 + r)
  }

  /** For `v >= 0` and `m > 0`, `r = v / m` gives `r / (1 + r)` in [0, 1). */
  lemma SquashRange(v: real, m: real)
    requires 0.0 <= v && 0.0 < m
    ensures 0.0 <= (v / m) / (1.0 + v / m) < 1.0
  {
    var r := v / m;
    assert r * m == v;
    assert 0.0 <= r;
    var d := 1.0 + r;
    assert (r / d) * d == r;
    assert r < d;
  }

  /**
   * `Knapsack::fitness`. A selection heavier than `max_weight` is
   * `Invalid`. Otherwise the score is `Squash(value, max_weight)`; with
   * `max_weight == 0` that ratio is infinite or NaN and the `is_finite`
   * assertion panics.
   */
  function FitnessOf(k: Knapsack, genes: seq<byte>): (r: Result<Fitness, string>)
    ensures r.Err? <==> k.maxWeight == 0 && Totals(k.items, genes, ONE).0 == 0
    ensures r.Ok? ==> (r.value.Invalid? <==> Totals(k.items, genes, ONE).0 > k.maxWeight)
    ensures r.Ok? && r.value.Valid? ==> 0.0 <= r.value.score < 1.0
  {
    var (weight, value) := Totals(k.items, genes, ONE);
    if weight > k.maxWeight then Ok(Invalid)
    else if k.maxWeight == 0 then Err("assertion failed: fitness.is_finite()")
    else Ok(Valid(Squash(value, k.maxWeight)))
  }

  /** More value under the same cut-off scores strictly higher. */
  lemma SquashMonotone(v1: nat, v2: nat, maxWeight: nat)
    requires maxWeight > 0
    requires v1 < v2
    ensures Squash(v1, maxWeight) < Squash(v2, maxWeight)
  {
    var m := maxWeight as real;
    var r1 := v1 as real / m;
    var r2 := v2 as real / m;
    assert r1 < r2 by {
      assert r1 * m == v1 as real;
      assert r2 * m == v2 as real;
    }
    assert 0.0 <= r1 by {
      assert r1 * m == v1 as real;
    }
    RatioMonotone(r1, r2);
  }

  /** `r / (1 + r)` grows strictly with `r >= 0`. */
  lemma RatioMonotone(r1: real, r2: real)
    requires 0.0 <= r1 < r2
    ensures r1 / (1.0 + r1) < r2 / (1.0 + r2)
  {
    assert r1 / (1.0 + r1) == 1.0 - 1.0 / (1.0 + r1);
    assert r2 / (1.0 + r2) == 1.0 - 1.0 / (1.0 + r2);
    InverseDecreasing(1.0 + r1, 1.0 + r2);
  }

  lemma InverseDecreasing(a: real, b: real)
    requires 0.0 < a < b
    ensures 1.0 / b < 1.0 / a
  {
    assert (1.0 / b) * b == 1.0;
    assert (1.0 / a) * a == 1.0;
  }

  /**
   * One turn of the mutation loop for a gene `c`: a coin with probability
   * `rate`; when it fires, a forced mutation takes `alphabet[n]` for `n` in
   * `0..len-1`, or `alphabet[n+1]` when that equals `c`, and an unforced one
   * takes any symbol of the alphabet.
   */
  function MutateGene(c: byte, rate: real, forced: bool, src: Source): (r: (byte, Source))
    requires 0.0 <= rate <= 1.0
    ensures !Fired(src, 0, rate) ==> r.0 == c
    ensures Fired(src, 0, rate) ==> r.0 in ALPHABET
    ensures Fired(src, 0, rate) && forced ==> r.0 != c
    ensures r.1.uniform == src.uniform && r.1.nextUniform == src.nextUniform + 1
  {
    var (fire, s1) := src.GenBool(rate);
    if !fire then (c, s1)
    else if forced then
      var (n, s2) := s1.GenRange(0, |ALPHABET| - 1);
      var m := ALPHABET[n];
      (if m == c then ALPHABET[n + 1] else m, s2)
    else
      var (n, s2) := s1.GenRange(0, |ALPHABET|);
      (ALPHABET[n], s2)
  }

  /**
   * The first `n` genes after the mutation loop has visited them, and the
   * draws left over. Gene `i` spends the `i`-th coin; it changes only when
   * that coin fires, then becomes a symbol of the alphabet, a different one
   * when the mutation is forced.
   */
  function MutatePrefix(genes: seq<byte>, n: nat, rate: real, forced: bool, src: Source): (r: (seq<byte>, Source))
    requires n <= |genes|
    requires 0.0 <= rate <= 1.0
    ensures |r.0| == n
    ensures r.1.uniform == src.uniform && r.1.nextUniform == src.nextUniform + n
    ensures forall i :: 0 <= i < n && !Fired(src, i, rate) ==> r.0[i] == genes[i]
    ensures forall i :: 0 <= i < n && Fired(src, i, rate) ==> r.0[i] in ALPHABET
    ensures forall i :: 0 <= i < n && Fired(src, i, rate) && forced ==> r.0[i] != genes[i]
  {
    if n == 0 then ([], src)
    else
      var (pre, s) := MutatePrefix(genes, n - 1, rate, forced, src);
      var (c, s') := MutateGene(genes[n - 1], rate, forced, s);
      (pre + [c], s')
  }

  /** With rate 0 no coin fires and mutation changes nothing. */
  lemma MutateRateZero(genes: seq<byte>, forced: bool, src: Source)
    ensures MutatePrefix(genes, |genes|, 0.0, forced, src).0 == genes
  {
  }

  /**
   * `Knapsack::mutate` on the genes of a genotype, in place; the
   * genotype's recorded fitness is not touched.
   */
  method Mutate(rate: real, forced: bool, g: array<byte>, src: Source) returns (src': Source)
    requires 0.0 <= rate <= 1.0
    modifies g
    ensures (g[..], src') == MutatePrefix(old(g[..]), g.Length, rate, forced, src)
  {
    ghost var genes := g[..];
    src' := src;
    for n := 0 to g.Length
      invariant g[..n] == MutatePrefix(genes, n, rate, forced, src).0
      invariant forall k :: n <= k < g.Length ==> g[k] == genes[k]
      invariant src' == MutatePrefix(genes, n, rate, forced, src).1
    {
      var coin := src'.GenBool(rate);
      src' := coin.1;
      if coin.0 {
        if forced {
          var draw := src'.GenRange(0, |ALPHABET| - 1);
          src' := draw.1;
          var m := ALPHABET[draw.0];
          g[n] := if m == g[n] then ALPHABET[draw.0 + 1] else m;
        } else {
          var draw := src'.GenRange(0, |ALPHABET|);
          src' := draw.1;
          g[n] := ALPHABET[draw.0];
        }
      }
      assert g[..n + 1] == g[..n] + [g[n]];
    }
    assert g[..] == g[..g.Length];
    assert |genes| == g.Length;
  }

  /** What the line loop of `parse_file` has gathered so far. */
  datatype Parsed = Parsed(maxWeight: nat, items: seq<(nat, nat)>)

  /**
   * One line of the file, spaces removed and split on commas. More than two
   * fields add `(field1, field2)` when both are numbers and are skipped
   * otherwise; exactly two fields set `max_weight` from field 1 or panic;
   * a single field changes nothing.
   */
  function ParseLine(acc: Parsed, line: string): (r: Result<Parsed, string>)
    ensures var fields := Split(RemoveAll(line, ' '), ',');
      |fields| > 2 ==>
        (r.Ok? && r.value.maxWeight == acc.maxWeight &&
         if ParseUsize(fields[1]).Some? && ParseUsize(fields[2]).Some?
         then r.value.items == acc.items + [(ParseUsize(fields[1]).value, ParseUsize(fields[2]).value)]
         else r.value.items == acc.items)
    ensures var fields := Split(RemoveAll(line, ' '), ',');
      |fields| == 2 ==>
        ((r.Ok? <==> ParseUsize(fields[1]).Some?) &&
         (r.Ok? ==> r.value == Parsed(ParseUsize(fields[1]).value, acc.items)) &&
         (r.Err? ==> r.error == "Failed to get weight"))
    ensures Count(line, ',') == 0 ==> r == Ok(acc)
    ensures r.Ok? ==> r.value.maxWeight < USIZE_BOUND || r.value.maxWeight == acc.maxWeight
  {
    RemoveAllCounts(line, ' ', ',');
    var fields := Split(RemoveAll(line, ' '), ',');
    if |fields| > 2 then
      match (ParseUsize(fields[1]), ParseUsize(fields[2]))
      case (Some(x), Some(y)) => Ok(acc.(items := acc.items + [(x, y)]))
      case _ => Ok(acc)
    else if |fields| == 2 then
      match ParseUsize(fields[1])
      case Some(w) => Ok(acc.(maxWeight := w))
      case None => Err("Failed to get weight")
    else Ok(acc)
  }

  /**
   * The state after the first `n` lines: `Err` for a panic, `Ok(None)` for
   * a line that could not be read (`None` in `lines`).
   */
  function ParsePrefix(lines: seq<Option<string>>, n: nat): (r: Result<Option<Parsed>, string>)
    requires n <= |lines|
  {
    if n == 0 then Ok(Some(Parsed(0, [])))
    else
      match ParsePrefix(lines, n - 1)
      case Err(e) => Err(e)
      case Ok(None) => Ok(None)
      case Ok(Some(acc)) =>
        match lines[n - 1]
        case None => Ok(None)
        case Some(l) =>
          match ParseLine(acc, l)
          case Err(e) => Err(e)
          case Ok(acc') => Ok(Some(acc'))
  }

  /** The whole of `parse_file`: a missing weight (still 0) panics at the end. */
  function ParseSpec(lines: seq<Option<string>>): (r: Result<Option<Parsed>, string>)
    ensures r.Ok? && r.value.Some? ==> r.value.value.maxWeight > 0
  {
    match ParsePrefix(lines, |lines|)
    case Ok(Some(p)) => if p.maxWeight == 0 then Err("Failed to get weight") else Ok(Some(p))
    case other => other
  }

  /**
   * `parse_file` over the lines of the file as read (`None` for a line
   * that failed to read).
   */
  method ParseFile(lines: seq<Option<string>>) returns (r: Result<Option<Parsed>, string>)
    ensures r == ParseSpec(lines)
  {
    var acc := Parsed(0, []);
    for n := 0 to |lines|
      invariant ParsePrefix(lines, n) == Ok(Some(acc))
    {
      if lines[n].None? {
        Unreadable(lines, n, acc);
        return Ok(None);
      }
      var before := acc;
      var fields := Split(RemoveAll(lines[n].value, ' '), ',');
      if |fields| > 2 {
        var x := ParseUsize(fields[1]);
        var y := ParseUsize(fields[2]);
        if x.Some? && y.Some? {
          acc := acc.(items := acc.items + [(x.value, y.value)]);
        }
      } else if |fields| == 2 {
        var w := ParseUsize(fields[1]);
        if w.None? {
          Panicked(lines, n, acc);
          return Err("Failed to get weight");
        }
        acc := acc.(maxWeight := w.value);
      }
      Advanced(lines, n, before, acc);
    }
    if acc.maxWeight == 0 {
      return Err("Failed to get weight");
    }
    return Ok(Some(acc));
  }

  /** A line that parses extends the prefix by what `ParseLine` made of it. */
  lemma Advanced(lines: seq<Option<string>>, n: nat, acc: Parsed, next: Parsed)
    requires n < |lines| && ParsePrefix(lines, n) == Ok(Some(acc))
    requires lines[n].Some? && ParseLine(acc, lines[n].value) == Ok(next)
    ensures ParsePrefix(lines, n + 1) == Ok(Some(next))
  {
  }

  /** A line that cannot be read ends the parse with nothing. */
  lemma {:induction false} Unreadable(lines: seq<Option<string>>, n: nat, acc: Parsed)
    requires n < |lines| && ParsePrefix(lines, n) == Ok(Some(acc)) && lines[n].None?
    ensures ParseSpec(lines) == Ok(None)
  {
    UnreadableStep(lines, n, acc);
    Decided(lines, n + 1);
  }

  lemma UnreadableStep(lines: seq<Option<string>>, n: nat, acc: Parsed)
    requires n < |lines| && ParsePrefix(lines, n) == Ok(Some(acc)) && lines[n].None?
    ensures ParsePrefix(lines, n + 1) == Ok(None)
  {
  }

  /** A line that panics decides the whole parse. */
  lemma {:induction false} Panicked(lines: seq<Option<string>>, n: nat, acc: Parsed)
    requires n < |lines| && ParsePrefix(lines, n) == Ok(Some(acc))
    requires lines[n].Some? && ParseLine(acc, lines[n].value).Err?
    ensures ParseSpec(lines) == Err(ParseLine(acc, lines[n].value).error)
  {
    PanicStep(lines, n, acc, ParseLine(acc, lines[n].value));
    Decided(lines, n + 1);
  }

  lemma PanicStep(lines: seq<Option<string>>, n: nat, acc: Parsed, r: Result<Parsed, string>)
    requires n < |lines| && ParsePrefix(lines, n) == Ok(Some(acc))
    requires lines[n].Some? && ParseLine(acc, lines[n].value) == r && r.Err?
    ensures ParsePrefix(lines, n + 1) == Err(r.error)
  {
  }

  /** Once the first `m` lines have panicked or hit an unreadable line, that is the outcome. */
  lemma Decided(lines: seq<Option<string>>, m: nat)
    requires m <= |lines|
    requires ParsePrefix(lines, m).Err? || ParsePrefix(lines, m) == Ok(None)
    ensures ParseSpec(lines) == ParsePrefix(lines, m)
  {
    ParseAbsorbs(lines, m, |lines|);
  }

  /** Once a panic or an unreadable line has ended the loop, later lines are never looked at. */
  lemma {:induction false} ParseAbsorbs(lines: seq<Option<string>>, n: nat, m: nat)
    requires n <= m <= |lines|
    requires ParsePrefix(lines, n).Err? || ParsePrefix(lines, n) == Ok(None)
    ensures ParsePrefix(lines, m) == ParsePrefix(lines, n)
  {
    if m > n {
      ParseAbsorbs(lines, n, m - 1);
    }
  }

  /** `Knapsack::new`: the parsed items with the `b'0'`/`b'1'` alphabet. */
  function New(lines: seq<Option<string>>): (r: Result<Option<Knapsack>, string>)
    ensures r.Ok? && r.value.Some? ==>
      ParseSpec(lines).Ok? && ParseSpec(lines).value.Some? &&
      Len(r.value.value) == |ParseSpec(lines).value.value.items|
  {
    match ParseSpec(lines)
    case Err(e) => Err(e)
    case Ok(None) => Ok(None)
    case Ok(Some(p)) => Ok(Some(Knapsack(p.items, p.maxWeight)))
  }
}
