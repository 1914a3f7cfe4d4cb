/**
 * The data-set generator (knapsack/generateSets.py): item names, the pools
 * of weights and values, the printed data set, and how the two knapsack
 * programs read that text back. Python's `random` is lifted into draw
 * functions passed in; what `randrange` would return is `lo + draw % width`.
 */
module DataSets {
  import opened Wrappers
  import opened Text
  import KnapsackSolver
  import KnapsackProblem

  /** `string.ascii_uppercase`: the 26 capital letters in order. */
  function Alphabet(): (r: string)
    ensures |r| == 26 && forall k :: 0 <= k < 26 ==> r[k] as int == 'A' as int + k
  {
    seq(26, k requires 0 <= k < 26 => ('A' as int + k) as char)
  }

  predicate IsCapital(c: char) { 'A' <= c <= 'Z' }

  /**
   * The name of item `i` as `get_ids` builds it: one letter for the first
   * 26, then two letters, the first chosen by `i // 26 - 1`; from `i = 702`
   * on that index is past `'Z'` and Python raises `IndexError` (`None`).
   */
  function Id(i: nat): (r: Option<string>)
    ensures r.Some? <==> i < 702
    ensures r.Some? ==> |r.value| == (if i < 26 then 1 else 2)
    ensures r.Some? ==> forall k :: 0 <= k < |r.value| ==> IsCapital(r.value[k])
  {
    if i < 26 then Some([Alphabet()[i]])
    else if i / 26 - 1 < 26 then Some([Alphabet()[i / 26 - 1], Alphabet()[i % 26]])
    else None
  }

  /** The index a one- or two-letter name stands for. */
  function Index(name: string): int
  {
    if |name| == 1 then name[0] as int - 'A' as int
    else if |name| == 2 then 26 * (name[0] as int - 'A' as int + 1) + (name[1] as int - 'A' as int)
    else -1
  }

  /** Every name decodes back to its index, so no two items share a name. */
  lemma IndexOfId(i: nat)
    requires i < 702
    ensures Index(Id(i).value) == i
  {
  }

  lemma IdInjective(i: nat, j: nat)
    requires i < 702 && j < 702 && i != j
    ensures Id(i) != Id(j)
  {
    IndexOfId(i);
    IndexOfId(j);
  }

  /** The names around the switch to two letters and at the end. */
  lemma IdExamples()
    ensures Id(0) == Some("A") && Id(25) == Some("Z")
    ensures Id(26) == Some("AA") && Id(51) == Some("AZ") && Id(52) == Some("BA")
    ensures Id(701) == Some("ZZ") && Id(702) == None
  {
  }

  function Max0(n: int): nat { if n < 0 then 0 else n }

  /** `get_ids(n)`: the names of items `0 .. n`, or the `IndexError`. */
  function Ids(n: int): (r: Result<seq<string>, string>)
    ensures r.Ok? <==> n <= 702
    ensures r.Ok? ==> |r.value| == Max0(n) && forall i :: 0 <= i < Max0(n) ==> Id(i) == Some(r.value[i])
  {
    if n > 702 then Err("string index out of range")
    else Ok(seq(Max0(n), i requires 0 <= i < Max0(n) => Id(i).value))
  }

  /** `get_ids`: the loop that appends one name per index. */
  method GetIds(n: int) returns (r: Result<seq<string>, string>)
    ensures r == Ids(n)
  {
    var result: seq<string> := [];
    var i := 0;
    while i < n
      invariant 0 <= i <= 702 && i <= Max0(n)
      invariant |result| == i && forall k :: 0 <= k < i ==> Id(k) == Some(result[k])
    {
      if i < 26 {
        result := result + [[Alphabet()[i]]];
      } else {
        if i / 26 - 1 >= 26 {
          return Err("string index out of range");
        }
        result := result + [[Alphabet()[i / 26 - 1], Alphabet()[i % 26]]];
      }
      i := i + 1;
    }
    assert result == Ids(n).value;
    return Ok(result);
  }

  /**
   * The weights (or the values) of the items: with the distinct flag every
   * integer from `lo` to `hi` in order; otherwise `number` draws of
   * `randrange(lo, hi + 1)`, where an empty range raises `ValueError` as
   * soon as something is drawn.
   */
  function Pool(distinct: bool, lo: int, hi: int, number: int, draws: nat -> nat): (r: Result<seq<int>, string>)
    ensures r.Err? <==> !distinct && number > 0 && hi < lo
    ensures r.Ok? ==> forall k :: 0 <= k < |r.value| ==> lo <= r.value[k] <= hi
    ensures r.Ok? && distinct ==> (|r.value| == Max0(hi + 1 - lo) &&
      forall k :: 0 <= k < |r.value| ==> r.value[k] == lo + k)
    ensures r.Ok? && !distinct ==> |r.value| == Max0(number)
  {
    if distinct then Ok(seq(Max0(hi + 1 - lo), k => lo + k))
    else if number <= 0 then Ok([])
    else if hi < lo then Err("empty range for randrange()")
    else Ok(seq(number, i requires 0 <= i < number => lo + draws(i) % (hi + 1 - lo)))
  }

  /** Python's `str` of an integer. */
  function Str(n: int): (r: string)
    ensures n >= 0 ==> r == Decimal(n)
  {
    if n < 0 then "-" + Decimal(-n) else Decimal(n)
  }

  /** The first line: `number, weight_limit`. */
  function Header(number: int, limit: int): string
  {
    Str(number) + ", " + Str(limit)
  }

  /** One item line: `id,weight,value`, without spaces. */
  function ItemLine(id: string, w: int, v: int): string
  {
    id + "," + Str(w) + "," + Str(v)
  }

  /** The lines of the data set: the header, then one line per item. */
  function Lines(number: int, limit: int, ids: seq<string>, ws: seq<int>, vs: seq<int>): (r: seq<string>)
    requires Max0(number) <= |ids| && Max0(number) <= |ws| && Max0(number) <= |vs|
    ensures |r| == Max0(number) + 1
  {
    [Header(number, limit)] +
    seq(Max0(number), i requires 0 <= i < Max0(number) => ItemLine(ids[i], ws[i], vs[i]))
  }

  /** Line `i + 1` is the line of item `i`. */
  lemma LineAt(number: int, limit: int, ids: seq<string>, ws: seq<int>, vs: seq<int>, i: nat)
    requires Max0(number) <= |ids| && Max0(number) <= |ws| && Max0(number) <= |vs|
    requires i < Max0(number)
    ensures Lines(number, limit, ids, ws, vs)[0] == Header(number, limit)
    ensures Lines(number, limit, ids, ws, vs)[i + 1] == ItemLine(ids[i], ws[i], vs[i])
  {
    var items := seq(Max0(number), j requires 0 <= j < Max0(number) => ItemLine(ids[j], ws[j], vs[j]));
    assert Lines(number, limit, ids, ws, vs) == [Header(number, limit)] + items;
    assert items[i] == ItemLine(ids[i], ws[i], vs[i]);
  }

  /**
   * The whole script: the names, the weight pool, the value pool, the
   * `pairs` list (an `IndexError` when a distinct pool is shorter than the
   * item count), and the printed text: the lines joined by line feeds, with
   * `print`'s final line feed.
   */
  function GenerateSpec(number: int, limit: int, maxW: int, minW: int, maxV: int, minV: int,
                        distinctW: bool, distinctV: bool, drawW: nat -> nat, drawV: nat -> nat): Result<string, string>
  {
    match Ids(number)
    case Err(e) => Err(e)
    case Ok(ids) =>
      match Pool(distinctW, minW, maxW, number, drawW)
      case Err(e) => Err(e)
      case Ok(ws) =>
        match Pool(distinctV, minV, maxV, number, drawV)
        case Err(e) => Err(e)
        case Ok(vs) =>
          if Max0(number) > |ws| || Max0(number) > |vs| then Err("list index out of range")
          else Ok(Join(Lines(number, limit, ids, ws, vs), '\n') + "\n")
  }

  /** The script's `__main__` block, which builds the output one line at a time. */
  method Generate(number: int, limit: int, maxW: int, minW: int, maxV: int, minV: int,
                  distinctW: bool, distinctV: bool, drawW: nat -> nat, drawV: nat -> nat)
    returns (r: Result<string, string>)
    ensures r == GenerateSpec(number, limit, maxW, minW, maxV, minV, distinctW, distinctV, drawW, drawV)
  {
    var ids := GetIds(number);
    if ids.Err? {
      return Err(ids.error);
    }
    var weights := Pool(distinctW, minW, maxW, number, drawW);
    if weights.Err? {
      return Err(weights.error);
    }
    var values := Pool(distinctV, minV, maxV, number, drawV);
    if values.Err? {
      return Err(values.error);
    }
    if Max0(number) > |weights.value| || Max0(number) > |values.value| {
      return Err("list index out of range");
    }
    var output := Listing(number, limit, ids.value, weights.value, values.value);
    return Ok(output + "\n");
  }

  /** Joining one more line of a list appends a line feed and that line. */
  lemma JoinPrefixStep(lines: seq<string>, k: nat)
    requires 1 <= k < |lines|
    ensures Join(lines[..k + 1], '\n') == Join(lines[..k], '\n') + "\n" + lines[k]
  {
    assert lines[..k + 1] == lines[..k] + [lines[k]];
    JoinAppend(lines[..k], lines[k], '\n');
  }

  /**
   * The header followed, for each item, by a line feed and the item's line:
   * the text is the lines joined by line feeds.
   */
  method Listing(number: int, limit: int, ids: seq<string>, ws: seq<int>, vs: seq<int>) returns (output: string)
    requires Max0(number) <= |ids| && Max0(number) <= |ws| && Max0(number) <= |vs|
    ensures output == Join(Lines(number, limit, ids, ws, vs), '\n')
  {
    output := Str(number) + ", " + Str(limit);
    ghost var lines := Lines(number, limit, ids, ws, vs);
    assert lines[..1] == [output];
    for i := 0 to Max0(number)
      invariant output == Join(lines[..i + 1], '\n')
    {
      LineAt(number, limit, ids, ws, vs, i);
      JoinPrefixStep(lines, i + 1);
      output := output + "\n" + ItemLine(ids[i], ws[i], vs[i]);
    }
    assert lines[..Max0(number) + 1] == lines;
  }

  // ------------------------------------------------------------- read back

  /** Lines that were all read successfully. */
  function Somes(lines: seq<string>): (r: seq<Option<string>>)
    ensures |r| == |lines| && forall k :: 0 <= k < |lines| ==> r[k] == Some(lines[k])
  {
    seq(|lines|, k requires 0 <= k < |lines| => Some(lines[k]))
  }

  /**
   * What the read-back lemmas need of a data set: names of capital letters,
   * and a count, a limit, weights and values that fit in a `usize`.
   */
  predicate Plain(number: nat, limit: nat, ids: seq<string>, ws: seq<nat>, vs: seq<nat>)
  {
    number <= |ids| && number <= |ws| && number <= |vs| &&
    number < USIZE_BOUND && limit < USIZE_BOUND &&
    (forall i :: 0 <= i < number ==> ws[i] < USIZE_BOUND && vs[i] < USIZE_BOUND) &&
    (forall i, k :: 0 <= i < number && 0 <= k < |ids[i]| ==> IsCapital(ids[i][k]))
  }

  /** Decimal text holds no separator of either file format. */
  lemma DecimalPlain(n: nat)
    ensures ',' !in Decimal(n) && ' ' !in Decimal(n) && '\n' !in Decimal(n)
    ensures Decimal(n)[0] != ' '
  {
  }

  /** The header splits on commas into the count and the space-led limit. */
  lemma {:induction false} HeaderFields(number: nat, limit: nat)
    ensures Split(Header(number, limit), ',') == [Decimal(number), " " + Decimal(limit)]
  {
    var dn, dl := Decimal(number), Decimal(limit);
    DecimalPlain(number);
    DecimalPlain(limit);
    assert Header(number, limit) == dn + [','] + (" " + dl);
    SplitPrefix(dn, " " + dl, ',');
    SplitFree(" " + dl, ',');
  }

  /** Without its spaces the header is `number,weight_limit`. */
  lemma HeaderUnspaced(number: nat, limit: nat)
    ensures RemoveAll(Header(number, limit), ' ') == Decimal(number) + "," + Decimal(limit)
  {
    var dn, dl := Decimal(number), Decimal(limit);
    DecimalPlain(number);
    DecimalPlain(limit);
    assert Header(number, limit) == (dn + ",") + (" " + dl);
    RemoveAllAppend(dn + ",", " " + dl, ' ');
    assert ' ' !in dn + ",";
    RemoveAllFree(dn + ",", ' ');
    RemoveAllAppend(" ", dl, ' ');
    RemoveAllFree(dl, ' ');
    assert RemoveAll(" ", ' ') == "";
  }

  /** An item line splits on commas into its name, weight and value. */
  lemma {:induction false} ItemFields(id: string, w: nat, v: nat)
    requires forall k :: 0 <= k < |id| ==> IsCapital(id[k])
    ensures Split(ItemLine(id, w, v), ',') == [id, Decimal(w), Decimal(v)]
  {
    var dw, dv := Decimal(w), Decimal(v);
    ItemShape(id, w, v);
    DecimalPlain(w);
    DecimalPlain(v);
    SplitPrefix(id, dw + [','] + dv, ',');
    SplitPrefix(dw, dv, ',');
    SplitFree(dv, ',');
  }

  /** An item line has no space and no line break. */
  lemma {:induction false} ItemPlain(id: string, w: nat, v: nat)
    requires forall k :: 0 <= k < |id| ==> IsCapital(id[k])
    ensures RemoveAll(ItemLine(id, w, v), ' ') == ItemLine(id, w, v)
    ensures '\n' !in ItemLine(id, w, v)
  {
    ItemShape(id, w, v);
    DecimalPlain(w);
    DecimalPlain(v);
    assert ' ' !in ItemLine(id, w, v);
    RemoveAllFree(ItemLine(id, w, v), ' ');
  }

  /** The pieces of an item line, with no comma, space or line break inside the name. */
  lemma ItemShape(id: string, w: nat, v: nat)
    requires forall k :: 0 <= k < |id| ==> IsCapital(id[k])
    ensures ItemLine(id, w, v) == id + [','] + (Decimal(w) + [','] + Decimal(v))
    ensures ',' !in id && ' ' !in id && '\n' !in id
  {
  }

  /** The thief's parser takes the count and the limit from the header. */
  lemma SolverHeaderLine(acc: KnapsackSolver.Contents, number: nat, limit: nat)
    requires number < USIZE_BOUND && limit < USIZE_BOUND
    ensures KnapsackSolver.ParseLine(acc, 0, Header(number, limit)) ==
      Ok(acc.(numItems := number, weight := limit))
  {
    HeaderFields(number, limit);
    ParseDecimal(number);
    ParseDecimal(limit);
    assert (" " + Decimal(limit))[1..] == Decimal(limit);
  }

  /** The thief's parser turns an item line into its item. */
  lemma SolverItemLine(acc: KnapsackSolver.Contents, n: nat, id: string, w: nat, v: nat)
    requires forall k :: 0 <= k < |id| ==> IsCapital(id[k])
    requires w < USIZE_BOUND && v < USIZE_BOUND
    ensures KnapsackSolver.ParseLine(acc, n, ItemLine(id, w, v)) ==
      Ok(acc.(items := acc.items + [KnapsackSolver.Item(id, v, w)]))
  {
    ItemFields(id, w, v);
    ParseDecimal(w);
    ParseDecimal(v);
    DecimalPlain(w);
    DecimalPlain(v);
  }

  /** The genetic parser takes the maximum weight from the header. */
  lemma GeneticHeaderLine(acc: KnapsackProblem.Parsed, number: nat, limit: nat)
    requires limit < USIZE_BOUND
    ensures KnapsackProblem.ParseLine(acc, Header(number, limit)) == Ok(acc.(maxWeight := limit))
  {
    var dn, dl := Decimal(number), Decimal(limit);
    HeaderUnspaced(number, limit);
    DecimalPlain(number);
    DecimalPlain(limit);
    assert dn + "," + dl == dn + [','] + dl;
    SplitPrefix(dn, dl, ',');
    SplitFree(dl, ',');
    ParseDecimal(limit);
  }

  /** The genetic parser turns an item line into its (weight, value) pair. */
  lemma GeneticItemLine(acc: KnapsackProblem.Parsed, id: string, w: nat, v: nat)
    requires forall k :: 0 <= k < |id| ==> IsCapital(id[k])
    requires w < USIZE_BOUND && v < USIZE_BOUND
    ensures KnapsackProblem.ParseLine(acc, ItemLine(id, w, v)) == Ok(acc.(items := acc.items + [(w, v)]))
  {
    ItemFields(id, w, v);
    ItemPlain(id, w, v);
    ParseDecimal(w);
    ParseDecimal(v);
  }

  /** The items the thief's parser should find. */
  function Items(ids: seq<string>, ws: seq<nat>, vs: seq<nat>, k: nat): seq<KnapsackSolver.Item>
    requires k <= |ids| && k <= |ws| && k <= |vs|
  {
    seq(k, i requires 0 <= i < k => KnapsackSolver.Item(ids[i], vs[i], ws[i]))
  }

  /** The (weight, value) pairs the genetic parser should find. */
  function Pairs(ws: seq<nat>, vs: seq<nat>, k: nat): seq<(nat, nat)>
    requires k <= |ws| && k <= |vs|
  {
    seq(k, i requires 0 <= i < k => (ws[i], vs[i]))
  }

  lemma ItemsStep(ids: seq<string>, ws: seq<nat>, vs: seq<nat>, i: nat)
    requires i < |ids| && i < |ws| && i < |vs|
    ensures Items(ids, ws, vs, i + 1) == Items(ids, ws, vs, i) + [KnapsackSolver.Item(ids[i], vs[i], ws[i])]
  {
  }

  lemma PairsStep(ws: seq<nat>, vs: seq<nat>, i: nat)
    requires i < |ws| && i < |vs|
    ensures Pairs(ws, vs, i + 1) == Pairs(ws, vs, i) + [(ws[i], vs[i])]
  {
  }

  lemma {:induction false} SolverPrefix(number: nat, limit: nat, ids: seq<string>, ws: seq<nat>, vs: seq<nat>, k: nat)
    requires Plain(number, limit, ids, ws, vs) && k <= number
    ensures KnapsackSolver.ParsePrefix(Somes(Lines(number, limit, ids, ws, vs)), k + 1) ==
      Ok(KnapsackSolver.Contents(number, limit, Items(ids, ws, vs, k)))
  {
    var lines := Somes(Lines(number, limit, ids, ws, vs));
    if k == 0 {
      assert lines[0] == Some(Header(number, limit));
      SolverHeaderLine(KnapsackSolver.Contents(0, 0, []), number, limit);
      assert Items(ids, ws, vs, 0) == [];
    } else {
      SolverPrefix(number, limit, ids, ws, vs, k - 1);
      var i := k - 1;
      LineAt(number, limit, ids, ws, vs, i);
      SolverItemLine(KnapsackSolver.Contents(number, limit, Items(ids, ws, vs, i)), k, ids[i], ws[i], vs[i]);
      ItemsStep(ids, ws, vs, i);
    }
  }

  lemma {:induction false} GeneticPrefix(number: nat, limit: nat, ids: seq<string>, ws: seq<nat>, vs: seq<nat>, k: nat)
    requires Plain(number, limit, ids, ws, vs) && k <= number
    ensures KnapsackProblem.ParsePrefix(Somes(Lines(number, limit, ids, ws, vs)), k + 1) ==
      Ok(Some(KnapsackProblem.Parsed(limit, Pairs(ws, vs, k))))
  {
    var lines := Somes(Lines(number, limit, ids, ws, vs));
    if k == 0 {
      assert lines[0] == Some(Header(number, limit));
      GeneticHeaderLine(KnapsackProblem.Parsed(0, []), number, limit);
      assert Pairs(ws, vs, 0) == [];
    } else {
      GeneticPrefix(number, limit, ids, ws, vs, k - 1);
      var i := k - 1;
      LineAt(number, limit, ids, ws, vs, i);
      GeneticItemLine(KnapsackProblem.Parsed(limit, Pairs(ws, vs, i)), ids[i], ws[i], vs[i]);
      PairsStep(ws, vs, i);
    }
  }

  /** The printed data set, read back line by line, is exactly its lines. */
  lemma ReadBackLines(number: nat, limit: nat, ids: seq<string>, ws: seq<nat>, vs: seq<nat>)
    requires Plain(number, limit, ids, ws, vs)
    ensures ReadLines(Join(Lines(number, limit, ids, ws, vs), '\n') + "\n") == Lines(number, limit, ids, ws, vs)
  {
    var lines := Lines(number, limit, ids, ws, vs);
    ReadPrinted(Join(lines, '\n'));
    forall k | 0 <= k < |lines|
      ensures '\n' !in lines[k]
    {
      if k == 0 {
        DecimalPlain(number);
        DecimalPlain(limit);
      } else {
        ItemPlain(ids[k - 1], ws[k - 1], vs[k - 1]);
      }
    }
    SplitJoin(lines, '\n');
  }

  /**
   * A generated data set, read by the thief's `parse_file`, gives back the
   * count, the limit and every item with its name, value and weight.
   */
  lemma SolverReadsDataSet(number: nat, limit: nat, ids: seq<string>, ws: seq<nat>, vs: seq<nat>)
    requires Plain(number, limit, ids, ws, vs)
    ensures var lines := ReadLines(Join(Lines(number, limit, ids, ws, vs), '\n') + "\n");
      KnapsackSolver.ParsePrefix(Somes(lines), |lines|) ==
        Ok(KnapsackSolver.Contents(number, limit, Items(ids, ws, vs, number)))
  {
    ReadBackLines(number, limit, ids, ws, vs);
    SolverPrefix(number, limit, ids, ws, vs, number);
  }

  /**
   * The same data set, read by the genetic engine's `parse_file`, gives the
   * limit as the maximum weight and every (weight, value) pair in order,
   * provided the limit is not 0 (which that parser rejects).
   */
  lemma GeneticReadsDataSet(number: nat, limit: nat, ids: seq<string>, ws: seq<nat>, vs: seq<nat>)
    requires Plain(number, limit, ids, ws, vs)
    ensures var lines := ReadLines(Join(Lines(number, limit, ids, ws, vs), '\n') + "\n");
      KnapsackProblem.ParseSpec(Somes(lines)) ==
        if limit == 0 then Err("Failed to get weight")
        else Ok(Some(KnapsackProblem.Parsed(limit, Pairs(ws, vs, number))))
  {
    var lines := Somes(Lines(number, limit, ids, ws, vs));
    ReadBackLines(number, limit, ids, ws, vs);
    GeneticPrefix(number, limit, ids, ws, vs, number);
    assert |lines| == number + 1;
    assert KnapsackProblem.ParsePrefix(lines, |lines|) == Ok(Some(KnapsackProblem.Parsed(limit, Pairs(ws, vs, number))));
  }

  /**
   * Whatever the script prints with non-negative arguments below 2^64 reads
   * back through the thief's parser as the generated names and pools.
   */
  lemma GeneratedReadsBack(number: nat, limit: nat, maxW: nat, minW: nat, maxV: nat, minV: nat,
                           distinctW: bool, distinctV: bool, drawW: nat -> nat, drawV: nat -> nat)
    requires number < USIZE_BOUND && limit < USIZE_BOUND && maxW < USIZE_BOUND && maxV < USIZE_BOUND
    requires GenerateSpec(number, limit, maxW, minW, maxV, minV, distinctW, distinctV, drawW, drawV).Ok?
    ensures var text := GenerateSpec(number, limit, maxW, minW, maxV, minV, distinctW, distinctV, drawW, drawV).value;
      var lines := ReadLines(text);
      var ids := Ids(number).value;
      var ws := Pool(distinctW, minW, maxW, number, drawW).value;
      var vs := Pool(distinctV, minV, maxV, number, drawV).value;
      |ws| >= number && |vs| >= number &&
      (forall i :: 0 <= i < number ==> minW <= ws[i] <= maxW && minV <= vs[i] <= maxV) &&
      KnapsackSolver.ParsePrefix(Somes(lines), |lines|) ==
        Ok(KnapsackSolver.Contents(number, limit,
          seq(number, i requires 0 <= i < number => KnapsackSolver.Item(ids[i], vs[i], ws[i]))))
  {
    var ids := Ids(number).value;
    var ws := Pool(distinctW, minW, maxW, number, drawW).value;
    var vs := Pool(distinctV, minV, maxV, number, drawV).value;
    var ws' := seq(|ws|, k requires 0 <= k < |ws| => ws[k] as nat);
    var vs' := seq(|vs|, k requires 0 <= k < |vs| => vs[k] as nat);
    assert ws' == ws && vs' == vs;
    forall i, k | 0 <= i < number && 0 <= k < |ids[i]|
      ensures IsCapital(ids[i][k])
    {
      assert Id(i) == Some(ids[i]);
    }
    assert Plain(number, limit, ids, ws', vs');
    SolverReadsDataSet(number, limit, ids, ws', vs');
  }
}
