/**
 * The earlier, string-based genetic algorithm of
 * genetic-algorithms/src/genetic/src/lib.rs (genetic-algorithms/src/main.rs
 * holds verbatim copies of the same four functions). Genotypes are strings
 * over a caller-supplied alphabet; every function rebuilds strings rather
 * than updating buffers, and every random draw comes from a `Source`.
 * Strings are taken to be ASCII, so a byte index is a character index.
 */
module StringGenetic {
  import opened Wrappers
  import opened Text
  import opened Sorting
  import opened Draws

  datatype SexMethod = One | Two | Uniform

  datatype SelectionMethod = Equal | Replacement | Remainder

  // ----------------------------------------------------------------- mutate

  /** In a distinct alphabet a symbol occurs at most once. */
  lemma {:induction false} CountDistinct(alphabet: seq<char>, c: char)
    ensures Distinct(alphabet) ==> Count(alphabet, c) <= 1
  {
    if alphabet != [] && Distinct(alphabet) {
      assert Distinct(alphabet[1..]);
      CountDistinct(alphabet[1..], c);
      if alphabet[0] == c {
        assert c !in alphabet[1..];
      }
    }
  }

  /** The symbols of the alphabet other than `c` (`.filter(|c| *c != temp[i])`) are exactly those. */
  lemma OthersMembers(alphabet: seq<char>, c: char, x: char)
    ensures x in RemoveAll(alphabet, c) <==> x in alphabet && x != c
  {
    if x != c {
      RemoveAllCounts(alphabet, c, x);
    }
  }

  /**
   * One turn of the loop for gene `c`: a coin of probability `rate`; when
   * it fires, a forced mutation indexes the alphabet without `c` by a draw
   * from `0..|alphabet| - 1`, and an unforced one indexes the whole
   * alphabet. The panics: subtracting 1 from an empty alphabet's length,
   * drawing from an empty range, and indexing past the filtered alphabet
   * when `c` occurs in the alphabet more than once.
   */
  function MutateGene(c: char, rate: real, alphabet: seq<char>, force: bool, src: Source): (r: Result<(char, Source), string>)
    requires 0.0 <= rate <= 1.0
    ensures r.Ok? ==> r.value.1.uniform == src.uniform && r.value.1.nextUniform == src.nextUniform + 1
    ensures !Fired(src, 0, rate) ==> r.Ok? && r.value.0 == c
    ensures r.Ok? && Fired(src, 0, rate) ==> r.value.0 in alphabet
    ensures r.Ok? && Fired(src, 0, rate) && force ==> r.value.0 != c
    ensures !force && |alphabet| > 0 ==> r.Ok?
    ensures force && Distinct(alphabet) && |alphabet| >= 2 ==> r.Ok?
  {
    var (fire, s1) := src.GenBool(rate);
    if !fire then Ok((c, s1))
    else if force then
      if |alphabet| == 0 then Err("attempt to subtract with overflow")
      else if |alphabet| == 1 then Err("cannot sample empty range")
      else
        var (n, s2) := s1.GenRange(0, |alphabet| - 1);
        var others := RemoveAll(alphabet, c);
        CountDistinct(alphabet, c);
        if n < |others| then
          OthersMembers(alphabet, c, others[n]);
          Ok((others[n], s2))
        else Err("index out of bounds")
    else if |alphabet| == 0 then Err("cannot sample empty range")
    else
      var (n, s2) := s1.GenRange(0, |alphabet|);
      Ok((alphabet[n], s2))
  }

  /**
   * The first `n` genes of `s` after the loop has visited them. Gene `i`
   * spends the `i`-th coin and changes only when it fires; then it becomes
   * an alphabet symbol, and a different one when the mutation is forced. A
   * panic needs a coin that fired; with a non-empty alphabet an unforced
   * mutation never panics, and a forced one never panics when the alphabet
   * is distinct and has two symbols or more.
   */
  function MutatePrefix(s: string, n: nat, rate: real, alphabet: seq<char>, force: bool, src: Source): (r: Result<(string, Source), string>)
    requires n <= |s|
    requires 0.0 <= rate <= 1.0
    ensures r.Ok? ==> |r.value.0| == n
    ensures r.Ok? ==> r.value.1.uniform == src.uniform && r.value.1.nextUniform == src.nextUniform + n
    ensures r.Ok? ==> forall i :: 0 <= i < n && !Fired(src, i, rate) ==> r.value.0[i] == s[i]
    ensures r.Ok? ==> forall i :: 0 <= i < n && Fired(src, i, rate) ==> r.value.0[i] in alphabet
    ensures r.Ok? && force ==> forall i :: 0 <= i < n && Fired(src, i, rate) ==> r.value.0[i] != s[i]
    ensures (forall i :: 0 <= i < n ==> !Fired(src, i, rate)) ==> r.Ok?
    ensures !force && |alphabet| > 0 ==> r.Ok?
    ensures force && Distinct(alphabet) && |alphabet| >= 2 ==> r.Ok?
  {
    if n == 0 then Ok(([], src))
    else
      match MutatePrefix(s, n - 1, rate, alphabet, force, src)
      case Err(e) => Err(e)
      case Ok((pre, s1)) =>
        assert Fired(src, n - 1, rate) <==> Fired(s1, 0, rate);
        match MutateGene(s[n - 1], rate, alphabet, force, s1)
        case Err(e) => Err(e)
        case Ok((c, s2)) =>
          assert forall i :: 0 <= i < n - 1 ==> (pre + [c])[i] == pre[i];
          Ok((pre + [c], s2))
  }

  /** One more gene: the prefix grows by what `MutateGene` makes of it, or panics with it. */
  lemma {:induction false} MutateStep(s: string, i: nat, rate: real, alphabet: seq<char>, force: bool, src: Source, pre: string, s1: Source)
    requires i < |s| && 0.0 <= rate <= 1.0
    requires MutatePrefix(s, i, rate, alphabet, force, src) == Ok((pre, s1))
    ensures var g := MutateGene(s[i], rate, alphabet, force, s1);
      MutatePrefix(s, i + 1, rate, alphabet, force, src) == if g.Ok? then Ok((pre + [g.value.0], g.value.1)) else Err(g.error)
  {
  }

  /** Once a gene has panicked, the rest of the string is never reached. */
  lemma {:induction false} MutateAbsorbs(s: string, n: nat, m: nat, rate: real, alphabet: seq<char>, force: bool, src: Source)
    requires n <= m <= |s|
    requires 0.0 <= rate <= 1.0
    requires MutatePrefix(s, n, rate, alphabet, force, src).Err?
    ensures MutatePrefix(s, m, rate, alphabet, force, src) == MutatePrefix(s, n, rate, alphabet, force, src)
  {
    if m > n {
      MutateAbsorbs(s, n, m - 1, rate, alphabet, force, src);
    }
  }

  /**
   * `mutate`: child 0 then child 1, the coins of child 1 following those of
   * child 0.
   */
  function MutateSpec(child: (string, string), rate: real, alphabet: seq<char>, force: bool, src: Source): (r: Result<((string, string), Source), string>)
    requires 0.0 <= rate <= 1.0
    ensures r.Ok? ==> |r.value.0.0| == |child.0| && |r.value.0.1| == |child.1|
  {
    match MutatePrefix(child.0, |child.0|, rate, alphabet, force, src)
    case Err(e) => Err(e)
    case Ok((c0, s1)) =>
      match MutatePrefix(child.1, |child.1|, rate, alphabet, force, s1)
      case Err(e) => Err(e)
      case Ok((c1, s2)) => Ok(((c0, c1), s2))
  }

  /** With rate 0 no coin fires: both children come back unchanged. */
  lemma MutateRateZero(child: (string, string), alphabet: seq<char>, force: bool, src: Source)
    ensures MutateSpec(child, 0.0, alphabet, force, src).Ok?
    ensures MutateSpec(child, 0.0, alphabet, force, src).value.0 == child
  {
    var r0 := MutatePrefix(child.0, |child.0|, 0.0, alphabet, force, src);
    assert r0.value.0 == child.0;
    var r1 := MutatePrefix(child.1, |child.1|, 0.0, alphabet, force, r0.value.1);
    assert r1.value.0 == child.1;
  }

  /**
   * With rate 1 every coin fires; with a forced mutation over a distinct
   * alphabet of two symbols or more, nothing panics and every gene of both
   * children changes.
   */
  lemma MutateAllForced(child: (string, string), alphabet: seq<char>, src: Source)
    requires Distinct(alphabet) && |alphabet| >= 2
    ensures MutateSpec(child, 1.0, alphabet, true, src).Ok?
    ensures var c := MutateSpec(child, 1.0, alphabet, true, src).value.0;
      (forall i :: 0 <= i < |child.0| ==> c.0[i] != child.0[i]) &&
      (forall i :: 0 <= i < |child.1| ==> c.1[i] != child.1[i])
  {
    var r0 := MutatePrefix(child.0, |child.0|, 1.0, alphabet, true, src);
    var r1 := MutatePrefix(child.1, |child.1|, 1.0, alphabet, true, r0.value.1);
    assert forall i :: 0 <= i < |child.0| ==> Fired(src, i, 1.0);
    assert forall i :: 0 <= i < |child.1| ==> Fired(r0.value.1, i, 1.0);
  }

  /**
   * One pass of the loop of `mutate` at gene `i`: the coin, then, when it
   * fires, the string rebuilt with gene `i` replaced.
   */
  method MutateAt(child: string, i: nat, rate: real, alphabet: seq<char>, force: bool, src: Source) returns (r: Result<string, string>, src': Source)
    requires i < |child| && 0.0 <= rate <= 1.0
    ensures r.Ok? ==> |r.value| == |child|
    ensures r.Ok? ==> MutateGene(child[i], rate, alphabet, force, src) == Ok((r.value[i], src'))
    ensures r.Ok? ==> r.value == child[i := r.value[i]]
    ensures r.Err? ==> MutateGene(child[i], rate, alphabet, force, src) == Err(r.error)
  {
    var coin := src.GenBool(rate);
    src' := coin.1;
    if !coin.0 {
      return Ok(child), src';
    }
    var temp := child;
    if force {
      if |alphabet| == 0 {
        return Err("attempt to subtract with overflow"), src';
      }
      var others := RemoveAll(alphabet, temp[i]);
      if |alphabet| == 1 {
        return Err("cannot sample empty range"), src';
      }
      var draw := src'.GenRange(0, |alphabet| - 1);
      src' := draw.1;
      if draw.0 >= |others| {
        return Err("index out of bounds"), src';
      }
      temp := temp[i := others[draw.0]];
    } else {
      if |alphabet| == 0 {
        return Err("cannot sample empty range"), src';
      }
      var draw := src'.GenRange(0, |alphabet|);
      src' := draw.1;
      temp := temp[i := alphabet[draw.0]];
    }
    return Ok(temp), src';
  }

  /** One of the two loops of `mutate`, rebuilding the string at each fired gene. */
  method MutateString(s: string, rate: real, alphabet: seq<char>, force: bool, src: Source) returns (r: Result<string, string>, src': Source)
    requires 0.0 <= rate <= 1.0
    ensures MutatePrefix(s, |s|, rate, alphabet, force, src) == if r.Ok? then Ok((r.value, src')) else Err(r.error)
  {
    var child := s;
    src' := src;
    for i := 0 to |s|
      invariant |child| == |s|
      invariant forall j :: i <= j < |s| ==> child[j] == s[j]
      invariant MutatePrefix(s, i, rate, alphabet, force, src) == Ok((child[..i], src'))
    {
      MutateStep(s, i, rate, alphabet, force, src, child[..i], src');
      var next;
      next, src' := MutateAt(child, i, rate, alphabet, force, src');
      if next.Err? {
        MutateAbsorbs(s, i + 1, |s|, rate, alphabet, force, src);
        return Err(next.error), src';
      }
      assert child[..i] + [next.value[i]] == next.value[..i + 1];
      child := next.value;
    }
    assert child == child[..|s|];
    return Ok(child), src';
  }

  /** `mutate`: the loop over child 0, then the loop over child 1. */
  method Mutate(child: (string, string), rate: real, alphabet: seq<char>, force: bool, src: Source) returns (r: Result<(string, string), string>, src': Source)
    requires 0.0 <= rate <= 1.0
    ensures MutateSpec(child, rate, alphabet, force, src) == if r.Ok? then Ok((r.value, src')) else Err(r.error)
  {
    var c0, c1;
    c0, src' := MutateString(child.0, rate, alphabet, force, src);
    if c0.Err? {
      return Err(c0.error), src';
    }
    c1, src' := MutateString(child.1, rate, alphabet, force, src');
    if c1.Err? {
      return Err(c1.error), src';
    }
    return Ok((c0.value, c1.value)), src';
  }

  // -------------------------------------------------------------- reproduce

  lemma PrefixMultiset(x: string, a: nat, b: nat)
    requires a <= b <= |x|
    ensures multiset(x[..b]) == multiset(x[..a]) + multiset(x[a..b])
  {
    assert x[..b] == x[..a] + x[a..b];
  }

  /** A child drawn from the first `e` genes is drawn from the whole parent. */
  lemma PrefixDrawn(x: string, c: string, e: int)
    requires 0 <= e <= |x| && multiset(c) <= multiset(x[..e])
    ensures multiset(c) <= multiset(x)
  {
    PrefixMultiset(x, e, |x|);
    assert x[..|x|] == x;
  }

  /** A child drawn from the first `end` genes, grown by the genes `last..i`, is drawn from the first `i`. */
  lemma Grow(x: string, c: string, end: int, last: nat, i: nat)
    requires 0 <= end <= last <= i <= |x| && multiset(c) <= multiset(x[..end])
    ensures multiset(c + x[last..i]) <= multiset(x[..i])
  {
    PrefixMultiset(x, end, last);
    PrefixMultiset(x, last, i);
  }

  /**
   * The crossover loop after its first `n` points: the two children so far
   * and `last`. At every point `i` child 0 gets `parent.0[last..i]` and
   * child 1 gets `parent.1[last..i]` (the cycle over the two parents is
   * advanced twice per point, so each child only ever sees its own parent),
   * then `last += i`. Slicing panics when `last > i` or `i` passes the end
   * of a parent. So far the children are equally long, no longer than the
   * last point nor than `last`, and draw their genes from their own
   * parent's genes only.
   */
  function Splice(x: string, y: string, points: seq<int>, n: nat): (r: Result<(string, string, nat), string>)
    requires n <= |points|
    ensures r.Ok? ==> |r.value.0| == |r.value.1| <= r.value.2
    ensures r.Ok? && n > 0 ==> |r.value.0| <= points[n - 1] <= r.value.2 && points[n - 1] <= |x| && points[n - 1] <= |y|
    ensures r.Ok? ==> multiset(r.value.0) <= multiset(x[..if n == 0 then 0 else points[n - 1]])
    ensures r.Ok? ==> multiset(r.value.1) <= multiset(y[..if n == 0 then 0 else points[n - 1]])
  {
    if n == 0 then Ok(([], [], 0))
    else
      match Splice(x, y, points, n - 1)
      case Err(e) => Err(e)
      case Ok((c0, c1, last)) =>
        var i := points[n - 1];
        if last > i then Err("slice index starts after it ends")
        else if i > |x| || i > |y| then Err("slice end out of range")
        else
          var end := if n == 1 then 0 else points[n - 2];
          Grow(x, c0, end, last, i);
          Grow(y, c1, end, last, i);
          Ok((c0 + x[last..i], c1 + y[last..i], last + i))
  }

  /** One point `p` cuts both children at `p`: each is a proper prefix of its own parent. */
  lemma SpliceOnePoint(x: string, y: string, p: nat)
    requires p < |x| <= |y|
    ensures Splice(x, y, [p], 1) == Ok((x[..p], y[..p], p))
  {
    SpliceFirst(x, y, [p]);
  }

  /** The first point alone cuts both parents at it. */
  lemma SpliceFirst(x: string, y: string, points: seq<int>)
    requires 1 <= |points| && 0 <= points[0] <= |x| && points[0] <= |y|
    ensures Splice(x, y, points, 1) == Ok((x[..points[0]], y[..points[0]], points[0]))
  {
    assert Splice(x, y, points, 0) == Ok(([], [], 0));
    assert [] + x[0..points[0]] == x[..points[0]] && [] + y[0..points[0]] == y[..points[0]];
  }

  /** One more point: a panic when it lies before `last`, otherwise the next slices appended. */
  lemma SpliceStep(x: string, y: string, points: seq<int>, n: nat, c0: string, c1: string, last: nat)
    requires 0 < n <= |points| && Splice(x, y, points, n - 1) == Ok((c0, c1, last))
    ensures last > points[n - 1] ==> Splice(x, y, points, n).Err?
    ensures last <= points[n - 1] <= |x| && points[n - 1] <= |y| ==>
      Splice(x, y, points, n) == Ok((c0 + x[last..points[n - 1]], c1 + y[last..points[n - 1]], last + points[n - 1]))
  {
  }

  /**
   * Two points `p <= q` cut both children at `q`, the same as one point
   * at `q`; two points with `q < p` panic.
   */
  lemma SpliceTwoPoints(x: string, y: string, p: nat, q: nat)
    requires p < |x| <= |y| && q < |x|
    ensures Splice(x, y, [p, q], 2).Ok? <==> p <= q
    ensures p <= q ==> Splice(x, y, [p, q], 2) == Ok((x[..q], y[..q], p + q))
  {
    if p <= q {
      SpliceOrdered(x, y, p, q);
    } else {
      SpliceFirst(x, y, [p, q]);
      SpliceStep(x, y, [p, q], 2, x[..p], y[..p], p);
    }
  }

  /** Two ordered points: both children are cut at the second. */
  lemma SpliceOrdered(x: string, y: string, p: nat, q: nat)
    requires p <= q < |x| <= |y|
    ensures Splice(x, y, [p, q], 2) == Ok((x[..q], y[..q], p + q))
  {
    SpliceFirst(x, y, [p, q]);
    SpliceStep(x, y, [p, q], 2, x[..p], y[..p], p);
    PrefixJoin(x, p, q);
    PrefixJoin(y, p, q);
  }

  /** A prefix and the slice after it make the longer prefix. */
  lemma PrefixJoin(x: string, p: nat, q: nat)
    requires p <= q <= |x|
    ensures x[..p] + x[p..q] == x[..q]
  {
  }

  /**
   * The crossover points: one or two distinct draws from `0..len`, or, for
   * `Uniform`, a count drawn from `0..len` (a panic for an empty parent)
   * and that many distinct draws. They are not sorted.
   */
  function DrawPoints(sex: SexMethod, length: nat, src: Source): (r: Result<(seq<int>, Source), string>)
    ensures r.Ok? ==> forall k :: 0 <= k < |r.value.0| ==> 0 <= r.value.0[k] < length
    ensures r.Ok? ==> Distinct(r.value.0)
    ensures r.Ok? && sex == One ==> |r.value.0| == if length == 0 then 0 else 1
    ensures r.Ok? && sex == Two ==> |r.value.0| == if length < 2 then length else 2
    ensures r.Ok? && sex == Uniform ==> |r.value.0| < length
    ensures r.Err? <==> sex == Uniform && length == 0
  {
    match sex
    case One => Ok(ChooseMultiple(0, length, 1, src))
    case Two => Ok(ChooseMultiple(0, length, 2, src))
    case Uniform =>
      if length == 0 then Err("cannot sample empty range")
      else
        var (num, s1) := src.GenRange(0, length);
        Ok(ChooseMultiple(0, length, num, s1))
  }

  /**
   * The crossover of `reproduce`: the points drawn for the method, then
   * the two children spliced from them. The children are equally long,
   * shorter than the first parent unless it is empty, and each holds genes
   * of its own parent only.
   */
  function Crossover(parent: (string, string), sex: SexMethod, src: Source): (r: Result<((string, string), Source), string>)
    ensures r.Ok? ==> |r.value.0.0| == |r.value.0.1| && (|r.value.0.0| < |parent.0| || |parent.0| == 0)
    ensures r.Ok? ==> multiset(r.value.0.0) <= multiset(parent.0) && multiset(r.value.0.1) <= multiset(parent.1)
  {
    match DrawPoints(sex, |parent.0|, src)
    case Err(e) => Err(e)
    case Ok((points, s1)) =>
      match Splice(parent.0, parent.1, points, |points|)
      case Err(e) => Err(e)
      case Ok((c0, c1, _)) =>
        SplicedChildren(parent.0, parent.1, points);
        Ok(((c0, c1), s1))
  }

  /**
   * `reproduce`: with the skip coin the parents come back as they are;
   * otherwise the crossed children, mutated when the rate is positive.
   */
  function ReproduceSpec(parent: (string, string), sex: SexMethod, alphabet: seq<char>, rate: real, skip: real, force: bool, src: Source): (r: Result<((string, string), Source), string>)
    requires 0.0 <= rate <= 1.0 && 0.0 <= skip <= 1.0
    ensures r.Err? ==> !Fired(src, 0, skip)
    ensures r.Ok? && !Fired(src, 0, skip) ==>
      |r.value.0.0| == |r.value.0.1| && (|r.value.0.0| < |parent.0| || |parent.0| == 0)
    ensures r.Ok? && !Fired(src, 0, skip) && rate == 0.0 ==>
      multiset(r.value.0.0) <= multiset(parent.0) && multiset(r.value.0.1) <= multiset(parent.1)
  {
    var (skipped, s1) := src.GenBool(skip);
    if skipped then Ok((parent, s1))
    else
      match Crossover(parent, sex, s1)
      case Err(e) => Err(e)
      case Ok((c, s2)) =>
        if rate > 0.0 then MutateSpec(c, rate, alphabet, force, s2) else Ok((c, s2))
  }

  /** When the skip coin fires the parents are returned untouched, whatever the rates. */
  lemma SkipReturnsParents(parent: (string, string), sex: SexMethod, alphabet: seq<char>, rate: real, skip: real, force: bool, src: Source)
    requires 0.0 <= rate <= 1.0 && 0.0 <= skip <= 1.0
    requires Fired(src, 0, skip)
    ensures ReproduceSpec(parent, sex, alphabet, rate, skip, force, src) == Ok((parent, src.(nextUniform := src.nextUniform + 1)))
  {
  }

  /** Splicing at cut points inside the first parent gives equally long children, shorter than it, drawn from their own parents. */
  lemma {:induction false} SplicedChildren(x: string, y: string, points: seq<int>)
    requires forall k :: 0 <= k < |points| ==> 0 <= points[k] < |x|
    requires Splice(x, y, points, |points|).Ok?
    ensures var c := Splice(x, y, points, |points|).value;
      |c.0| == |c.1| && (|c.0| < |x| || |x| == 0) && multiset(c.0) <= multiset(x) && multiset(c.1) <= multiset(y)
  {
    var (c0, c1, _) := Splice(x, y, points, |points|).value;
    var e := if points == [] then 0 else points[|points| - 1];
    PrefixDrawn(x, c0, e);
    PrefixDrawn(y, c1, e);
  }

  /**
   * Without the skip, the children are never as long as the first parent
   * (unless it is empty) and are equally long; without mutation each child
   * holds genes of its own parent only.
   */
  lemma {:induction false} ChildrenShorter(parent: (string, string), sex: SexMethod, alphabet: seq<char>, rate: real, skip: real, force: bool, src: Source)
    requires 0.0 <= rate <= 1.0 && 0.0 <= skip <= 1.0
    requires !Fired(src, 0, skip)
    requires ReproduceSpec(parent, sex, alphabet, rate, skip, force, src).Ok?
    ensures var c := ReproduceSpec(parent, sex, alphabet, rate, skip, force, src).value.0;
      |c.0| == |c.1| && (|c.0| < |parent.0| || |parent.0| == 0)
    ensures rate == 0.0 ==>
      var c := ReproduceSpec(parent, sex, alphabet, rate, skip, force, src).value.0;
      multiset(c.0) <= multiset(parent.0) && multiset(c.1) <= multiset(parent.1)
  {
    var s1 := src.(nextUniform := src.nextUniform + 1);
    assert !src.GenBool(skip).0;
    var (c, s2) := Crossover(parent, sex, s1).value;
    if rate > 0.0 {
      assert ReproduceSpec(parent, sex, alphabet, rate, skip, force, src) == MutateSpec(c, rate, alphabet, force, s2);
    }
  }

  /**
   * One-point crossover of equally long parents without mutation: each
   * child is a proper prefix of its own parent.
   */
  lemma OnePointPrefixes(parent: (string, string), alphabet: seq<char>, skip: real, force: bool, src: Source)
    requires 0.0 <= skip <= 1.0
    requires !Fired(src, 0, skip)
    requires 0 < |parent.0| == |parent.1|
    ensures ReproduceSpec(parent, One, alphabet, 0.0, skip, force, src).Ok?
    ensures var c := ReproduceSpec(parent, One, alphabet, 0.0, skip, force, src).value.0;
      |c.0| < |parent.0| && c.0 == parent.0[..|c.0|] && c.1 == parent.1[..|c.1|]
  {
    var s1 := src.(nextUniform := src.nextUniform + 1);
    var (points, s2) := DrawPoints(One, |parent.0|, s1).value;
    assert points == [points[0]];
    SpliceOnePoint(parent.0, parent.1, points[0]);
  }

  /** Once a slice has panicked, the later points are never reached. */
  lemma {:induction false} SpliceAbsorbs(x: string, y: string, points: seq<int>, n: nat, m: nat)
    requires n <= m <= |points|
    requires Splice(x, y, points, n).Err?
    ensures Splice(x, y, points, m) == Splice(x, y, points, n)
  {
    if m > n {
      SpliceAbsorbs(x, y, points, n, m - 1);
    }
  }

  /** The crossover loop of `reproduce`: the slices appended point by point. */
  method SpliceLoop(x: string, y: string, points: seq<int>) returns (r: Result<(string, string, nat), string>)
    ensures r == Splice(x, y, points, |points|)
  {
    var child0, child1 := "", "";
    var last: nat := 0;
    for k := 0 to |points|
      invariant Splice(x, y, points, k) == Ok((child0, child1, last))
    {
      var i := points[k];
      if last > i {
        SpliceAbsorbs(x, y, points, k + 1, |points|);
        return Err("slice index starts after it ends");
      }
      if i > |x| || i > |y| {
        SpliceAbsorbs(x, y, points, k + 1, |points|);
        return Err("slice end out of range");
      }
      child0 := child0 + x[last..i];
      child1 := child1 + y[last..i];
      last := last + i;
    }
    return Ok((child0, child1, last));
  }

  /**
   * `reproduce`, appending the slices of the two parents point by point
   * and then handing the children to `mutate` when the rate is positive.
   */
  method Reproduce(parent: (string, string), sex: SexMethod, alphabet: seq<char>, rate: real, skip: real, force: bool, src: Source)
    returns (r: Result<(string, string), string>, src': Source)
    requires 0.0 <= rate <= 1.0 && 0.0 <= skip <= 1.0
    ensures ReproduceSpec(parent, sex, alphabet, rate, skip, force, src) == if r.Ok? then Ok((r.value, src')) else Err(r.error)
  {
    var coin := src.GenBool(skip);
    src' := coin.1;
    if coin.0 {
      return Ok(parent), src';
    }
    var points: seq<int>;
    match sex {
      case One =>
        var drawn := ChooseMultiple(0, |parent.0|, 1, src');
        points, src' := drawn.0, drawn.1;
      case Two =>
        var drawn := ChooseMultiple(0, |parent.0|, 2, src');
        points, src' := drawn.0, drawn.1;
      case Uniform =>
        if |parent.0| == 0 {
          return Err("cannot sample empty range"), src';
        }
        var num := src'.GenRange(0, |parent.0|);
        var drawn := ChooseMultiple(0, |parent.0|, num.0, num.1);
        points, src' := drawn.0, drawn.1;
    }
    assert DrawPoints(sex, |parent.0|, coin.1) == Ok((points, src'));
    var spliced := SpliceLoop(parent.0, parent.1, points);
    if spliced.Err? {
      return Err(spliced.error), src';
    }
    var (child0, child1, _) := spliced.value;
    assert Crossover(parent, sex, coin.1) == Ok(((child0, child1), src'));
    if rate > 0.0 {
      r, src' := Mutate((child0, child1), rate, alphabet, force, src');
    } else {
      r := Ok((child0, child1));
    }
  }

  // ------------------------------------------------------ generate_genitors

  /** A string of exactly `length` symbols, all from the alphabet. */
  predicate IsGenotype(s: string, length: nat, alphabet: seq<char>)
  {
    |s| == length && forall j :: 0 <= j < |s| ==> s[j] in alphabet
  }

  /**
   * `generate_genitors`: `population` strings of `length` symbols, each
   * symbol an alphabet entry at a drawn index. An empty alphabet panics as
   * soon as a symbol is needed.
   */
  method GenerateGenitors(population: nat, length: nat, alphabet: seq<char>, src: Source) returns (r: Result<seq<string>, string>, src': Source)
    ensures r.Err? <==> population > 0 && length > 0 && |alphabet| == 0
    ensures r.Ok? ==> |r.value| == population
    ensures r.Ok? ==> forall k :: 0 <= k < |r.value| ==> IsGenotype(r.value[k], length, alphabet)
    ensures src'.uniform == src.uniform && src'.nextUniform == src.nextUniform
  {
    var v: seq<string> := [];
    src' := src;
    for n := 0 to population
      invariant |v| == n
      invariant n > 0 && length > 0 ==> |alphabet| > 0
      invariant forall k :: 0 <= k < n ==> IsGenotype(v[k], length, alphabet)
      invariant src'.uniform == src.uniform && src'.nextUniform == src.nextUniform
    {
      var genitor := "";
      for j := 0 to length
        invariant IsGenotype(genitor, j, alphabet)
        invariant j > 0 ==> |alphabet| > 0
        invariant src'.uniform == src.uniform && src'.nextUniform == src.nextUniform
      {
        if |alphabet| == 0 {
          return Err("cannot sample empty range"), src';
        }
        var draw := src'.GenRange(0, |alphabet|);
        src' := draw.1;
        genitor := genitor + [alphabet[draw.0]];
      }
      v := v + [genitor];
    }
    return Ok(v), src';
  }

  // ---------------------------------------------------- generate_population

  /** Genotypes paired with their fitness. */
  type Scored = seq<(string, real)>

  /** `a` is `b` with some entries left out, the rest in order. */
  predicate Subsequence(a: seq<string>, b: seq<string>)
    decreases |b|
  {
    a == [] ||
    (b != [] &&
     ((a[|a| - 1] == b[|b| - 1] && Subsequence(a[..|a| - 1], b[..|b| - 1])) ||
      Subsequence(a, b[..|b| - 1])))
  }

  /** Appending to the sequence keeps a subsequence, and so does appending to both. */
  lemma SubsequenceGrow(a: seq<string>, b: seq<string>, x: string)
    requires Subsequence(a, b)
    ensures Subsequence(a, b + [x]) && Subsequence(a + [x], b + [x])
  {
    assert (b + [x])[..|b|] == b;
    assert (a + [x])[..|a|] == a;
  }

  /** The positive names of a prefix one longer. */
  lemma PositiveNamesStep(g: Scored, n: nat)
    requires 0 < n <= |g|
    ensures PositiveNames(g[..n]) == PositiveNames(g[..n - 1]) + (if g[n - 1].1 > 0.0 then [g[n - 1].0] else [])
  {
    assert g[..n][..n - 1] == g[..n - 1];
  }

  /** A subsequence holds each entry at most as often as the sequence does. */
  lemma {:induction false} SubsequenceMultiset(a: seq<string>, b: seq<string>)
    requires Subsequence(a, b)
    ensures multiset(a) <= multiset(b)
    ensures |a| <= |b|
    decreases |b|
  {
    if a != [] {
      assert b == b[..|b| - 1] + [b[|b| - 1]];
      if a[|a| - 1] == b[|b| - 1] && Subsequence(a[..|a| - 1], b[..|b| - 1]) {
        SubsequenceMultiset(a[..|a| - 1], b[..|b| - 1]);
        assert a == a[..|a| - 1] + [a[|a| - 1]];
      } else {
        SubsequenceMultiset(a, b[..|b| - 1]);
      }
    }
  }

  /** The genotypes of positive fitness, in order. */
  function PositiveNames(g: Scored): (r: seq<string>)
    ensures forall x :: x in r ==> exists i :: 0 <= i < |g| && g[i].0 == x && g[i].1 > 0.0
    ensures forall i :: 0 <= i < |g| && g[i].1 > 0.0 ==> g[i].0 in r
  {
    if g == [] then []
    else
      var rest := PositiveNames(g[..|g| - 1]);
      var last := g[|g| - 1];
      assert forall i :: 0 <= i < |g| - 1 ==> g[..|g| - 1][i] == g[i];
      if last.1 > 0.0 then rest + [last.0] else rest
  }

  /** `max(f, 0)`, the weight `WeightedIndex` gets for fitness `f`. */
  function Weights(g: Scored): (ws: seq<real>)
    ensures |ws| == |g| && NonNegative(ws)
    ensures forall i :: 0 <= i < |g| ==> (ws[i] > 0.0 <==> g[i].1 > 0.0)
  {
    seq(|g|, k requires 0 <= k < |g| => if g[k].1 > 0.0 then g[k].1 else 0.0)
  }

  /** The sum of non-negative weights is positive exactly when one weight is. */
  lemma {:induction false} TotalPositive(ws: seq<real>)
    requires NonNegative(ws)
    ensures Total(ws) > 0.0 <==> exists i :: 0 <= i < |ws| && ws[i] > 0.0
  {
    if ws != [] {
      assert NonNegative(ws[1..]);
      TotalPositive(ws[1..]);
      TotalNonNegative(ws[1..]);
      if exists i :: 0 <= i < |ws| && ws[i] > 0.0 {
        var i :| 0 <= i < |ws| && ws[i] > 0.0;
        if i > 0 {
          assert ws[1..][i - 1] > 0.0;
        }
      }
    }
  }

  /** Some genotype has positive fitness exactly when the positive fitnesses have a positive sum. */
  lemma PositiveTotal(g: Scored)
    ensures PositiveNames(g) != [] <==> Total(Weights(g)) > 0.0
  {
    TotalPositive(Weights(g));
    if PositiveNames(g) != [] {
      assert PositiveNames(g)[0] in PositiveNames(g);
    }
  }

  /**
   * A genotype's share of the average: the fitness over the average of
   * the positive fitnesses. When nothing is positive the f64 division
   * yields NaN or minus infinity, neither of which is above 0; the model
   * writes 0 for them.
   */
  function Ratio(fitness: real, avg: real): (f: real)
    ensures fitness <= 0.0 ==> f <= 0.0
    ensures f > 0.0 <==> fitness > 0.0 && avg > 0.0
  {
    if avg > 0.0 then fitness / avg else 0.0
  }

  /** `avg_fit`: the positive fitnesses summed and divided by the number of genotypes. */
  function Average(g: Scored): (a: real)
    ensures a >= 0.0
    ensures a > 0.0 <==> exists i :: 0 <= i < |g| && g[i].1 > 0.0
  {
    TotalNonNegative(Weights(g));
    TotalPositive(Weights(g));
    if g == [] then 0.0 else Total(Weights(g)) / (|g| as real)
  }

  /**
   * The Remainder pool after the first `n` genotypes. With `f` the ratio of
   * a genotype, the inner loop runs while the pool has room and `f > 0`:
   * for `f > 1` it pushes a copy and sets `f` to -1 (the statement is
   * `f =- 1.0`, an assignment of -1, not a decrement); otherwise it pushes
   * a copy when a coin of probability `f` fires and sets `f` to 0. Either
   * way the loop runs at most once per genotype. The pool never outgrows
   * `population`, takes each genotype at most once and in order, only
   * takes genotypes of positive fitness, and, unless it fills up, takes
   * every genotype whose ratio is above 1.
   */
  function RemainderPool(g: Scored, avg: real, population: nat, n: nat, src: Source): (r: (seq<string>, Source))
    requires n <= |g|
    ensures |r.0| <= population
    ensures Subsequence(r.0, PositiveNames(g[..n]))
  {
    if n == 0 then ([], src)
    else
      var (pool, s1) := RemainderPool(g, avg, population, n - 1, src);
      var entry := g[n - 1];
      var f := Ratio(entry.1, avg);
      var r :=
        if |pool| < population && f > 0.0 then
          if f > 1.0 then (pool + [entry.0], s1)
          else
            var (coin, s2) := s1.GenBool(f);
            (if coin then pool + [entry.0] else pool, s2)
        else (pool, s1);
      RemainderStep(g, n, pool, r.0);
      r
  }

  /** One more genotype: the pool is kept, or grows by a genotype of positive fitness. */
  lemma {:induction false} RemainderStep(g: Scored, n: nat, pool: seq<string>, next: seq<string>)
    requires 0 < n <= |g| && Subsequence(pool, PositiveNames(g[..n - 1]))
    requires next == pool || (next == pool + [g[n - 1].0] && g[n - 1].1 > 0.0)
    ensures Subsequence(next, PositiveNames(g[..n]))
  {
    var names := PositiveNames(g[..n - 1]);
    PositiveNamesStep(g, n);
    if g[n - 1].1 > 0.0 {
      SubsequenceGrow(pool, names, g[n - 1].0);
      assert PositiveNames(g[..n]) == names + [g[n - 1].0];
    } else {
      assert PositiveNames(g[..n]) == names;
    }
  }
  /** Unless the pool fills up, it takes every genotype whose ratio is above 1. */
  lemma {:induction false} RemainderTakesAboveOne(g: Scored, avg: real, population: nat, n: nat, src: Source)
    requires n <= |g|
    ensures var pool := RemainderPool(g, avg, population, n, src).0;
      |pool| < population ==> forall i :: 0 <= i < n && Ratio(g[i].1, avg) > 1.0 ==> g[i].0 in pool
  {
    if n > 0 {
      RemainderTakesAboveOne(g, avg, population, n - 1, src);
      var pool := RemainderPool(g, avg, population, n - 1, src).0;
      var r := RemainderPool(g, avg, population, n, src).0;
      RemainderShape(g, avg, population, n, src);
      if |r| < population {
        assert |pool| < population;
        forall i | 0 <= i < n && Ratio(g[i].1, avg) > 1.0
          ensures g[i].0 in r
        {
          if i < n - 1 {
            assert g[i].0 in pool;
            assert r == pool || r == pool + [g[n - 1].0];
          } else {
            assert r == pool + [g[n - 1].0];
          }
        }
      }
    }
  }

  /** One step of the pool: kept, or grown by the genotype, and grown when it has room and a ratio above 1. */
  lemma RemainderShape(g: Scored, avg: real, population: nat, n: nat, src: Source)
    requires 0 < n <= |g|
    ensures var pool := RemainderPool(g, avg, population, n - 1, src).0;
      var r := RemainderPool(g, avg, population, n, src).0;
      (r == pool || r == pool + [g[n - 1].0]) &&
      (|pool| < population && Ratio(g[n - 1].1, avg) > 1.0 ==> r == pool + [g[n - 1].0])
  {
  }


  /** The Remainder pool holds each genotype of positive fitness at most once, and nothing else. */
  lemma RemainderAtMostOnce(g: Scored, population: nat, src: Source)
    ensures var pool := RemainderPool(g, Average(g), population, |g|, src).0;
      multiset(pool) <= multiset(PositiveNames(g)) &&
      forall x :: x in pool ==> x in PositiveNames(g)
  {
    var pool := RemainderPool(g, Average(g), population, |g|, src).0;
    assert g[..|g|] == g;
    SubsequenceMultiset(pool, PositiveNames(g));
    forall x | x in pool ensures x in PositiveNames(g) {
      assert x in multiset(pool);
    }
  }

  /** The Remainder arm of `generate_population`: an outer loop over the genotypes and the inner `while`. */
  method FillRemainder(g: Scored, population: nat, src: Source) returns (pool: seq<string>, src': Source)
    ensures (pool, src') == RemainderPool(g, Average(g), population, |g|, src)
  {
    var avg := Average(g);
    pool, src' := [], src;
    for n := 0 to |g|
      invariant (pool, src') == RemainderPool(g, avg, population, n, src)
    {
      var (genotype, fitness) := g[n];
      var f := Ratio(fitness, avg);
      ghost var before := (pool, src');
      while |pool| < population && f > 0.0
        invariant (f == Ratio(fitness, avg) && (pool, src') == before) ||
                  (f <= 0.0 && (pool, src') == RemainderPool(g, avg, population, n + 1, src))
        decreases if f > 0.0 then 1 else 0
      {
        if f > 1.0 {
          pool := pool + [genotype];
          f := -1.0;
        } else {
          var coin := src'.GenBool(f);
          src' := coin.1;
          if coin.0 {
            pool := pool + [genotype];
          }
          f := 0.0;
        }
      }
    }
  }

  /**
   * The Replacement arm: `WeightedIndex::new` over `max(fitness, 0)`, whose
   * `unwrap` panics when no genotype has positive fitness (including an
   * empty population of genotypes), then draws until the pool holds
   * exactly `population` genotypes, each of positive fitness.
   */
  method FillReplacement(g: Scored, population: nat, src: Source) returns (r: Result<seq<string>, string>, src': Source)
    ensures r.Err? <==> PositiveNames(g) == []
    ensures r.Ok? ==> |r.value| == population
    ensures r.Ok? ==> forall k :: 0 <= k < |r.value| ==> r.value[k] in PositiveNames(g)
  {
    var ws := Weights(g);
    PositiveTotal(g);
    TotalNonNegative(ws);
    src' := src;
    if Total(ws) == 0.0 {
      return Err("called `Result::unwrap()` on an `Err` value"), src';
    }
    var pool: seq<string> := [];
    while |pool| < population
      invariant |pool| <= population
      invariant forall k :: 0 <= k < |pool| ==> pool[k] in PositiveNames(g)
      decreases population - |pool|
    {
      var drawn := SampleWeighted(ws, src');
      var (i, s1) := drawn.value;
      src' := s1;
      pool := pool + [g[i].0];
    }
    return Ok(pool), src';
  }

  /** The comparator of the ascending sort: `a.partial_cmp(b)` on the fitnesses. */
  function ByFitness(): ((string, real), (string, real)) -> bool
  {
    (a: (string, real), b: (string, real)) => a.1 <= b.1
  }

  lemma ByFitnessIsPreorder()
    ensures TotalPreorder(ByFitness())
  {
  }

  /** Each genotype paired with its fitness, in list order. */
  function Scores(all: seq<string>, fitness: string -> real): (r: Scored)
    ensures |r| == |all| && forall k :: 0 <= k < |all| ==> r[k] == (all[k], fitness(all[k]))
  {
    seq(|all|, k requires 0 <= k < |all| => (all[k], fitness(all[k])))
  }

  /**
   * The ranking is stable: genotypes of equal fitness keep the order the
   * list gave them.
   */
  lemma RankedStable(all: seq<string>, fitness: string -> real, y: (string, real))
    ensures Class(Ranked(all, fitness), y, ByFitness()) == Class(Scores(all, fitness), y, ByFitness())
  {
    ByFitnessIsPreorder();
    SortByStable(Scores(all, fitness), y, ByFitness());
  }

  /**
   * The genotypes paired with their fitness and sorted by ascending
   * fitness, stably: a rearrangement of the list in which every entry
   * carries its own genotype's fitness.
   */
  function Ranked(all: seq<string>, fitness: string -> real): (g: Scored)
    ensures |g| == |all|
    ensures multiset(g) == multiset(Scores(all, fitness))
    ensures forall i :: 0 <= i < |g| ==> g[i].0 in all && g[i].1 == fitness(g[i].0)
    ensures forall x :: x in all ==> exists i :: 0 <= i < |g| && g[i].0 == x
    ensures forall i, j :: 0 <= i < j < |g| ==> g[i].1 <= g[j].1
  {
    var scored := Scores(all, fitness);
    ByFitnessIsPreorder();
    var g := SortBy(scored, ByFitness());
    assert forall i :: 0 <= i < |g| ==> g[i].0 in all && g[i].1 == fitness(g[i].0) by {
      forall i | 0 <= i < |g| ensures g[i].0 in all && g[i].1 == fitness(g[i].0) {
        assert g[i] in multiset(scored);
        var k :| 0 <= k < |scored| && scored[k] == g[i];
      }
    }
    assert forall x :: x in all ==> exists i :: 0 <= i < |g| && g[i].0 == x by {
      forall x | x in all ensures exists i :: 0 <= i < |g| && g[i].0 == x {
        var k :| 0 <= k < |all| && all[k] == x;
        assert scored[k] in multiset(g);
        var i :| 0 <= i < |g| && g[i] == scored[k];
      }
    }
    g
  }

  /** A pool drawn from the genotypes of positive fitness holds only such genotypes of the list. */
  lemma PositivePool(all: seq<string>, fitness: string -> real, g: Scored, pool: seq<string>)
    requires forall i :: 0 <= i < |g| ==> g[i].0 in all && g[i].1 == fitness(g[i].0)
    requires forall k :: 0 <= k < |pool| ==> pool[k] in PositiveNames(g)
    ensures forall k :: 0 <= k < |pool| ==> pool[k] in all && fitness(pool[k]) > 0.0
  {
    forall k | 0 <= k < |pool| ensures pool[k] in all && fitness(pool[k]) > 0.0 {
      var i :| 0 <= i < |g| && g[i].0 == pool[k] && g[i].1 > 0.0;
    }
  }

  /**
   * The `match selection_method` of `generate_population` on the ranked
   * genotypes: Equal takes all of them in order; Remainder and
   * Replacement take only genotypes of positive fitness, Remainder at most
   * `population` of them, Replacement exactly `population`. Only
   * Replacement can panic, when nothing has positive fitness.
   */
  method SelectPool(g: Scored, population: nat, selection: SelectionMethod, src: Source) returns (r: Result<seq<string>, string>, src': Source)
    ensures r.Err? <==> selection == Replacement && PositiveNames(g) == []
    ensures r.Ok? && selection == Equal ==> |r.value| == |g| && forall k :: 0 <= k < |g| ==> r.value[k] == g[k].0
    ensures r.Ok? && selection != Equal ==> forall k :: 0 <= k < |r.value| ==> r.value[k] in PositiveNames(g)
    ensures r.Ok? && selection == Remainder ==> |r.value| <= population
    ensures r.Ok? && selection == Replacement ==> |r.value| == population
  {
    src' := src;
    match selection {
      case Equal =>
        return Ok(seq(|g|, k requires 0 <= k < |g| => g[k].0)), src';
      case Remainder =>
        var pool;
        pool, src' := FillRemainder(g, population, src);
        RemainderAtMostOnce(g, population, src);
        return Ok(pool), src';
      case Replacement =>
        r, src' := FillReplacement(g, population, src);
    }
  }

  /** The genitors given on the command line, if any. */
  function Supplied(genitors: Option<seq<string>>): seq<string>
  {
    if genitors.Some? then genitors.value else []
  }

  function Max(a: int, b: int): int { if a < b then b else a }

  /**
   * The first step of `generate_population`: the supplied genitors, with
   * fresh ones appended when there are fewer than `population`.
   */
  method TopUp(genitors: Option<seq<string>>, population: nat, length: nat, alphabet: seq<char>, src: Source)
    returns (r: Result<seq<string>, string>, src': Source)
    ensures r.Err? <==> |Supplied(genitors)| < population && length > 0 && |alphabet| == 0
    ensures r.Ok? ==> |r.value| == Max(|Supplied(genitors)|, population)
    ensures r.Ok? ==> r.value[..|Supplied(genitors)|] == Supplied(genitors)
    ensures r.Ok? ==> forall k :: |Supplied(genitors)| <= k < |r.value| ==> IsGenotype(r.value[k], length, alphabet)
  {
    src' := src;
    match genitors {
      case Some(supplied) =>
        if |supplied| < population {
          var more;
          more, src' := GenerateGenitors(population - |supplied|, length, alphabet, src');
          if more.Err? {
            return Err(more.error), src';
          }
          assert (supplied + more.value)[..|supplied|] == supplied;
          return Ok(supplied + more.value), src';
        }
        assert supplied[..|supplied|] == supplied;
        return Ok(supplied), src';
      case None =>
        var more;
        more, src' := GenerateGenitors(population, length, alphabet, src');
        if more.Err? {
          return Err(more.error), src';
        }
        return Ok(more.value), src';
    }
  }

  /** The topped-up population: the supplied genitors, then fresh genotypes. */
  lemma {:induction false} ToppedMembers(all: seq<string>, supplied: seq<string>, length: nat, alphabet: seq<char>)
    requires |supplied| <= |all| && all[..|supplied|] == supplied
    requires forall k :: |supplied| <= k < |all| ==> IsGenotype(all[k], length, alphabet)
    ensures forall x :: x in all ==> x in supplied || IsGenotype(x, length, alphabet)
    ensures forall x :: x in supplied ==> x in all
  {
    forall x | x in all
      ensures x in supplied || IsGenotype(x, length, alphabet)
    {
      var k :| 0 <= k < |all| && all[k] == x;
      if k < |supplied| {
        assert supplied[k] == x;
      }
    }
    forall x | x in supplied
      ensures x in all
    {
      var k :| 0 <= k < |supplied| && supplied[k] == x;
      assert all[k] == x;
    }
  }

  /**
   * The pool drawn from the ranked population: its entries come from the
   * population; Equal takes all of it in ranked order, the other methods
   * only entries of positive fitness.
   */
  lemma {:induction false} PoolMembers(all: seq<string>, fitness: string -> real, g: Scored, pool: seq<string>, selection: SelectionMethod)
    requires g == Ranked(all, fitness)
    requires selection == Equal ==> |pool| == |g| && forall k :: 0 <= k < |g| ==> pool[k] == g[k].0
    requires selection != Equal ==> forall k :: 0 <= k < |pool| ==> pool[k] in PositiveNames(g)
    ensures forall k :: 0 <= k < |pool| ==> pool[k] in all
    ensures selection != Equal ==> forall k :: 0 <= k < |pool| ==> fitness(pool[k]) > 0.0
    ensures selection == Equal ==>
      |pool| == |all| && (forall x :: x in all ==> x in pool) &&
      (forall i, j :: 0 <= i < j < |pool| ==> fitness(pool[i]) <= fitness(pool[j]))
  {
    forall k | 0 <= k < |pool|
      ensures pool[k] in all
      ensures selection != Equal ==> fitness(pool[k]) > 0.0
    {
      if selection == Equal {
        assert g[k].0 == pool[k];
      } else {
        var i :| 0 <= i < |g| && g[i].0 == pool[k] && g[i].1 > 0.0;
      }
    }
    if selection == Equal {
      forall x | x in all ensures x in pool {
        var i :| 0 <= i < |g| && g[i].0 == x;
        assert pool[i] == x;
      }
      forall i, j | 0 <= i < j < |pool|
        ensures fitness(pool[i]) <= fitness(pool[j])
      {
        assert pool[i] == g[i].0 && pool[j] == g[j].0;
      }
    }
  }

  /**
   * `generate_population`: the supplied genitors topped up with fresh ones
   * to `population`, scored, sorted by ascending fitness, and turned into a
   * mating pool. Equal takes every genotype in that order; Remainder at
   * most `population` genotypes, all of positive fitness; Replacement
   * exactly `population`, all of positive fitness. Every pool entry is a
   * supplied genitor or a fresh string over the alphabet. Only an empty
   * alphabet or a Replacement pool without positive fitness can panic.
   */
  method GeneratePopulation(fitness: string -> real, genitors: Option<seq<string>>, population: nat, length: nat,
                            alphabet: seq<char>, selection: SelectionMethod, src: Source)
    returns (r: Result<seq<string>, string>, src': Source)
    ensures r.Err? ==> |alphabet| == 0 || selection == Replacement
    ensures r.Ok? ==> forall k :: 0 <= k < |r.value| ==>
      r.value[k] in Supplied(genitors) || IsGenotype(r.value[k], length, alphabet)
    ensures r.Ok? && selection == Equal ==>
      |r.value| == Max(|Supplied(genitors)|, population) &&
      (forall x :: x in Supplied(genitors) ==> x in r.value) &&
      forall i, j :: 0 <= i < j < |r.value| ==> fitness(r.value[i]) <= fitness(r.value[j])
    ensures r.Ok? && selection == Remainder ==>
      |r.value| <= population && forall k :: 0 <= k < |r.value| ==> fitness(r.value[k]) > 0.0
    ensures r.Ok? && selection == Replacement ==>
      |r.value| == population && forall k :: 0 <= k < |r.value| ==> fitness(r.value[k]) > 0.0
  {
    var topped;
    topped, src' := TopUp(genitors, population, length, alphabet, src);
    if topped.Err? {
      return Err(topped.error), src';
    }
    var all := topped.value;
    ToppedMembers(all, Supplied(genitors), length, alphabet);
    var g := Ranked(all, fitness);
    var pool;
    pool, src' := SelectPool(g, population, selection, src');
    if pool.Err? {
      return Err(pool.error), src';
    }
    PoolMembers(all, fitness, g, pool.value, selection);
    return Ok(pool.value), src';
  }
}
