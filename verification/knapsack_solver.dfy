/**
 * The stand-alone knapsack thief (knapsack/src/main.rs): a knapsack of
 * items read from a comma-separated file, and three ways of filling a
 * second knapsack from it: greedily in file order, by an exhaustive scan of
 * every subset, and by a depth-first search that prunes overweight subsets.
 *
 * A `usize` subset mask over `n` items is modelled by its low `n` bits,
 * least significant first, as a `seq<bool>`: bit `j` selects item `j`,
 * `trailing_zeros` is the first set position, and `^= 2^index` on a set bit
 * clears it.
 */
module KnapsackSolver {
  import opened Wrappers
  import opened Text
  import opened Binary

  /** `struct Item { id, value, weight }`. */
  datatype Item = Item(id: string, value: nat, weight: nat)

  /** `struct Knapsack { num_items, weight, items }`. */
  class Knapsack {
    var numItems: nat
    var weight: nat
    var items: seq<Item>

    constructor (numItems: nat, weight: nat, items: seq<Item>)
      ensures this.numItems == numItems && this.weight == weight && this.items == items
    {
      this.numItems := numItems;
      this.weight := weight;
      this.items := items;
    }

    /** `add`: appends the item and recounts; the weight is left to the caller. */
    method Add(i: Item)
      modifies this
      ensures items == old(items) + [i]
      ensures numItems == |items|
      ensures weight == old(weight)
    {
      items := items + [i];
      numItems := |items|;
    }
  }

  /** The items among the first `p` whose bit is set, in index order. */
  function Chosen(items: seq<Item>, bits: seq<bool>, p: nat): (r: seq<Item>)
    requires p <= |items| && p <= |bits|
    ensures |r| <= p
  {
    if p == 0 then []
    else Chosen(items, bits, p - 1) + (if bits[p - 1] then [items[p - 1]] else [])
  }

  /** Summed weight of the items among the first `p` whose bit is set. */
  function Weight(items: seq<Item>, bits: seq<bool>, p: nat): nat
    requires p <= |items| && p <= |bits|
  {
    if p == 0 then 0
    else Weight(items, bits, p - 1) + (if bits[p - 1] then items[p - 1].weight else 0)
  }

  /** Summed value of the items among the first `p` whose bit is set. */
  function Value(items: seq<Item>, bits: seq<bool>, p: nat): nat
    requires p <= |items| && p <= |bits|
  {
    if p == 0 then 0
    else Value(items, bits, p - 1) + (if bits[p - 1] then items[p - 1].value else 0)
  }

  /** Summed weight of a list of items. */
  function WeightOf(items: seq<Item>): nat
  {
    if items == [] then 0 else WeightOf(items[..|items| - 1]) + items[|items| - 1].weight
  }

  /** Summed value of a list of items (what `Display` prints as the total). */
  function ValueOf(items: seq<Item>): nat
  {
    if items == [] then 0 else ValueOf(items[..|items| - 1]) + items[|items| - 1].value
  }

  /**
   * The chosen items weigh and are worth what the masks sums say, and
   * there are as many of them as set bits (`count_ones`).
   */
  lemma {:induction false} ChosenSums(items: seq<Item>, bits: seq<bool>, p: nat)
    requires p <= |items| && p <= |bits|
    ensures WeightOf(Chosen(items, bits, p)) == Weight(items, bits, p)
    ensures ValueOf(Chosen(items, bits, p)) == Value(items, bits, p)
    ensures |Chosen(items, bits, p)| == Count(bits[..p], true)
  {
    if p > 0 {
      ChosenSums(items, bits, p - 1);
      var s := Chosen(items, bits, p - 1);
      if bits[p - 1] {
        assert (s + [items[p - 1]])[..|s|] == s;
      } else {
        assert s + [] == s;
      }
      assert bits[..p] == bits[..p - 1] + [bits[p - 1]];
      CountAppend(bits[..p - 1], [bits[p - 1]], true);
    }
  }

  /** A subset mask over all items whose items fit in `capacity`. */
  predicate Fits(items: seq<Item>, capacity: nat, bits: seq<bool>)
  {
    |bits| == |items| && Weight(items, bits, |items|) <= capacity
  }

  /** A mask that selects every item another one selects weighs at least as much. */
  lemma {:induction false} WeightMonotone(items: seq<Item>, a: seq<bool>, b: seq<bool>, p: nat)
    requires p <= |items| && p <= |a| && p <= |b|
    requires forall j :: 0 <= j < p && a[j] ==> b[j]
    ensures Weight(items, a, p) <= Weight(items, b, p)
  {
    if p > 0 {
      WeightMonotone(items, a, b, p - 1);
    }
  }

  // ---------------------------------------------------------------- greedy

  /**
   * The greedy pass over the first `n` items: the bits of the items taken
   * and the weight taken. It never goes over capacity, and an item is left
   * behind only when it is heavier than what is left at the end.
   */
  function GreedyPrefix(items: seq<Item>, capacity: nat, n: nat): (r: (seq<bool>, nat))
    requires n <= |items|
    ensures |r.0| == n
    ensures r.1 == Weight(items, r.0, n) <= capacity
    ensures forall j :: 0 <= j < n && !r.0[j] ==> items[j].weight > capacity - r.1
  {
    if n == 0 then ([], 0)
    else
      var (taken, w) := GreedyPrefix(items, capacity, n - 1);
      var fits := items[n - 1].weight <= capacity - w;
      var taken' := taken + [fits];
      assert Weight(items, taken', n - 1) == Weight(items, taken, n - 1) by {
        SameBitsSameSums(items, taken, taken', n - 1);
      }
      (taken', if fits then w + items[n - 1].weight else w)
  }

  /** Sums over a prefix depend only on the bits of that prefix. */
  lemma {:induction false} SameBitsSameSums(items: seq<Item>, a: seq<bool>, b: seq<bool>, p: nat)
    requires p <= |items| && p <= |a| && p <= |b|
    requires forall j :: 0 <= j < p ==> a[j] == b[j]
    ensures Weight(items, a, p) == Weight(items, b, p)
    ensures Value(items, a, p) == Value(items, b, p)
    ensures Chosen(items, a, p) == Chosen(items, b, p)
  {
    if p > 0 {
      SameBitsSameSums(items, a, b, p - 1);
    }
  }

  /** Everything is taken when everything fits together. */
  lemma {:induction false} GreedyTakesAllThatFits(items: seq<Item>, capacity: nat, n: nat)
    requires n <= |items|
    requires Weight(items, seq(|items|, _ => true), n) <= capacity
    ensures forall j :: 0 <= j < n ==> GreedyPrefix(items, capacity, n).0[j]
  {
    if n > 0 {
      var all := seq(|items|, _ => true);
      assert Weight(items, all, n - 1) <= capacity;
      GreedyTakesAllThatFits(items, capacity, n - 1);
      var taken := GreedyPrefix(items, capacity, n - 1).0;
      assert forall j :: 0 <= j < n - 1 ==> taken[j] == all[j];
      SameBitsSameSums(items, taken, all, n - 1);
    }
  }

  /** One more item: taken, and its weight added, exactly when it fits in what is left. */
  lemma GreedyStep(items: seq<Item>, capacity: nat, n: nat)
    requires n < |items|
    ensures var (taken, w) := GreedyPrefix(items, capacity, n);
      var fits := items[n].weight <= capacity - w;
      Chosen(items, GreedyPrefix(items, capacity, n + 1).0, n + 1) ==
        Chosen(items, taken, n) + (if fits then [items[n]] else []) &&
      GreedyPrefix(items, capacity, n + 1).1 == if fits then w + items[n].weight else w
  {
    var taken := GreedyPrefix(items, capacity, n).0;
    var taken' := GreedyPrefix(items, capacity, n + 1).0;
    SameBitsSameSums(items, taken, taken', n);
  }

  /**
   * `greedy`: walks the items in file order and takes each one that fits in
   * what is left of the capacity.
   */
  method Greedy(k: Knapsack) returns (stolen: Knapsack)
    ensures fresh(stolen)
    ensures var (taken, w) := GreedyPrefix(k.items, k.weight, |k.items|);
      stolen.items == Chosen(k.items, taken, |k.items|) && stolen.weight == w &&
      stolen.numItems == |stolen.items|
  {
    stolen := new Knapsack(0, 0, []);
    var items, capacity := k.items, k.weight;
    for n := 0 to |items|
      invariant stolen.items == Chosen(items, GreedyPrefix(items, capacity, n).0, n)
      invariant stolen.weight == GreedyPrefix(items, capacity, n).1
      invariant stolen.numItems == |stolen.items|
    {
      var item := items[n];
      GreedyStep(items, capacity, n);
      if item.weight <= capacity - stolen.weight {
        stolen.Add(item);
        stolen.weight := stolen.weight + item.weight;
      }
    }
  }

  // ---------------------------------------------------------------- masks

  /** The low `n` bits of `i`, least significant first. */
  function Bits(i: nat, n: nat): (r: seq<bool>)
    ensures |r| == n
  {
    if n == 0 then [] else [i % 2 == 1] + Bits(i / 2, n - 1)
  }

  /** The number whose low bits are `b` and whose other bits are clear. */
  function FromBits(b: seq<bool>): nat
  {
    if b == [] then 0 else (if b[0] then 1 else 0) + 2 * FromBits(b[1..])
  }

  /** Every mask is the bits of exactly one number below `2^n`. */
  lemma {:induction false} BitsOfFromBits(b: seq<bool>)
    ensures FromBits(b) < Pow2(|b|)
    ensures Bits(FromBits(b), |b|) == b
  {
    if b != [] {
      BitsOfFromBits(b[1..]);
      var x := FromBits(b);
      assert x % 2 == 1 <==> b[0];
      assert x / 2 == FromBits(b[1..]);
      assert b == [b[0]] + b[1..];
    }
  }

  lemma {:induction false} FromBitsOfBits(i: nat, n: nat)
    requires i < Pow2(n)
    ensures FromBits(Bits(i, n)) == i
  {
    if n > 0 {
      FromBitsOfBits(i / 2, n - 1);
      assert Bits(i, n)[1..] == Bits(i / 2, n - 1);
    }
  }

  /** A mask that keeps some of another's bits and drops at least one is a smaller number. */
  lemma {:induction false} FewerBitsSmaller(a: seq<bool>, b: seq<bool>, j: nat)
    requires |a| == |b| && j < |a|
    requires forall k :: 0 <= k < |a| && a[k] ==> b[k]
    requires b[j] && !a[j]
    ensures FromBits(a) < FromBits(b)
  {
    FromBitsMonotone(a[1..], b[1..]);
    if j > 0 {
      FewerBitsSmaller(a[1..], b[1..], j - 1);
    }
  }

  lemma {:induction false} FromBitsMonotone(a: seq<bool>, b: seq<bool>)
    requires |a| == |b|
    requires forall k :: 0 <= k < |a| && a[k] ==> b[k]
    ensures FromBits(a) <= FromBits(b)
  {
    if a != [] {
      FromBitsMonotone(a[1..], b[1..]);
    }
  }

  /** `trailing_zeros` of a nonzero mask: its first set position. */
  function TrailingZeros(mask: seq<bool>): (r: nat)
    requires true in mask
    ensures r < |mask| && mask[r]
    ensures forall j :: 0 <= j < r ==> !mask[j]
  {
    if mask[0] then 0 else 1 + TrailingZeros(mask[1..])
  }

  // ------------------------------------------------------------ exhaustive

  /**
   * The inner loop of `exhaustive` over the set bits of `mask` below `p`,
   * lowest first: an item goes in only if it still fits. The packed weight
   * never exceeds the capacity and the packed value never exceeds the
   * mask's own value; a mask that fits as a whole is packed whole.
   */
  function Pack(items: seq<Item>, capacity: nat, mask: seq<bool>, p: nat): (r: (nat, nat))
    requires |mask| == |items| && p <= |items|
    ensures r.0 <= capacity
    ensures r.1 <= Value(items, mask, p)
    ensures Weight(items, mask, p) <= capacity ==>
      r == (Weight(items, mask, p), Value(items, mask, p))
  {
    if p == 0 then (0, 0)
    else
      var (w, v) := Pack(items, capacity, mask, p - 1);
      if mask[p - 1] && w + items[p - 1].weight <= capacity
      then (w + items[p - 1].weight, v + items[p - 1].value)
      else (w, v)
  }

  /** Clear bits add nothing to a packing. */
  lemma {:induction false} PackSkip(items: seq<Item>, capacity: nat, mask: seq<bool>, p: nat, q: nat)
    requires |mask| == |items| && p <= q <= |items|
    requires forall j :: p <= j < q ==> !mask[j]
    ensures Pack(items, capacity, mask, q) == Pack(items, capacity, mask, p)
  {
    if q > p {
      PackSkip(items, capacity, mask, p, q - 1);
    }
  }

  /** The bits, among the first `p`, of the items that the packing of `mask` takes. */
  function Packed(items: seq<Item>, capacity: nat, mask: seq<bool>, p: nat): (r: seq<bool>)
    requires |mask| == |items| && p <= |items|
    ensures |r| == p
    ensures forall j :: 0 <= j < p && r[j] ==> mask[j]
  {
    if p == 0 then []
    else
      Packed(items, capacity, mask, p - 1) +
      [mask[p - 1] && Pack(items, capacity, mask, p - 1).0 + items[p - 1].weight <= capacity]
  }

  /**
   * Packing only the items a packing took gives the same packing, and
   * that smaller mask fits as a whole.
   */
  lemma {:induction false} PackedPacksAlike(items: seq<Item>, capacity: nat, mask: seq<bool>)
    requires |mask| == |items|
    ensures Pack(items, capacity, Packed(items, capacity, mask, |items|), |items|) == Pack(items, capacity, mask, |items|)
    ensures Weight(items, Packed(items, capacity, mask, |items|), |items|) == Pack(items, capacity, mask, |items|).0
  {
    var taken := Packed(items, capacity, mask, |items|);
    for p := 0 to |items|
      invariant Pack(items, capacity, taken, p) == Pack(items, capacity, mask, p)
      invariant Weight(items, taken, p) == Pack(items, capacity, mask, p).0
    {
      assert taken[p] == Packed(items, capacity, mask, p + 1)[p] by {
        PackedPrefix(items, capacity, mask, p + 1, |items|);
      }
    }
  }

  /** Packing decisions already made do not change as more bits are looked at. */
  lemma {:induction false} PackedPrefix(items: seq<Item>, capacity: nat, mask: seq<bool>, p: nat, q: nat)
    requires |mask| == |items| && p <= q <= |items|
    ensures Packed(items, capacity, mask, q)[..p] == Packed(items, capacity, mask, p)
  {
    if q > p {
      PackedPrefix(items, capacity, mask, p, q - 1);
      assert Packed(items, capacity, mask, q)[..q - 1] == Packed(items, capacity, mask, q - 1);
    }
  }

  /**
   * `exhaustive`'s scan of the masks `0 .. count`: the winning mask with
   * its packed weight and value. Its value bounds every scanned mask's, and
   * it is the first mask to reach that value (a later one must be strictly
   * better to replace it).
   */
  function Scan(items: seq<Item>, capacity: nat, count: nat): (r: (nat, nat, nat))
    ensures r.0 < count || r.0 == 0
    ensures (r.1, r.2) == Pack(items, capacity, Bits(r.0, |items|), |items|)
    ensures forall i :: 0 <= i < count ==> Pack(items, capacity, Bits(i, |items|), |items|).1 <= r.2
    ensures forall i :: 0 <= i < r.0 ==> Pack(items, capacity, Bits(i, |items|), |items|).1 < r.2
  {
    if count == 0 then
      assert Pack(items, capacity, Bits(0, |items|), |items|) == (0, 0) by {
        BitsOfZero(|items|);
        PackSkip(items, capacity, Bits(0, |items|), 0, |items|);
      }
      (0, 0, 0)
    else
      var (m, w, v) := Scan(items, capacity, count - 1);
      var (w', v') := Pack(items, capacity, Bits(count - 1, |items|), |items|);
      var r := if v' > v then (count - 1, w', v') else (m, w, v);
      ScanBound(items, capacity, count, v, r.2);
      r
  }

  /** A bound on the first `count - 1` masks that also covers mask `count - 1` bounds the first `count`. */
  lemma ScanBound(items: seq<Item>, capacity: nat, count: nat, v: nat, v2: nat)
    requires count > 0 && v <= v2
    requires forall i :: 0 <= i < count - 1 ==> Pack(items, capacity, Bits(i, |items|), |items|).1 <= v
    requires Pack(items, capacity, Bits(count - 1, |items|), |items|).1 <= v2
    ensures forall i :: 0 <= i < count ==> Pack(items, capacity, Bits(i, |items|), |items|).1 <= v2
  {
  }

  lemma {:induction false} ZeroWeight(items: seq<Item>, p: nat)
    requires p <= |items|
    ensures Weight(items, seq(|items|, _ => false), p) == 0
  {
    if p > 0 {
      ZeroWeight(items, p - 1);
    }
  }

  /** The zero mask has no set bits. */
  lemma {:induction false} BitsOfZero(n: nat)
    ensures forall j :: 0 <= j < n ==> !Bits(0, n)[j]
  {
    if n > 0 {
      BitsOfZero(n - 1);
    }
  }

  /**
   * No subset that fits is worth more than the winner of the full scan
   * over `0 .. 2^n`.
   */
  lemma ExhaustiveOptimal(items: seq<Item>, capacity: nat, subset: seq<bool>)
    requires Fits(items, capacity, subset)
    ensures Value(items, subset, |items|) <= Scan(items, capacity, Pow2(|items|)).2
  {
    BitsOfFromBits(subset);
  }

  /**
   * The winning mask of the full scan packs whole: none of its items was
   * skipped for lack of room, so its own weight and value are the ones
   * recorded. A mask with a skipped item packs exactly like the smaller mask
   * of the items it took, which the scan met first.
   */
  lemma ExhaustiveWinnerFits(items: seq<Item>, capacity: nat)
    ensures var (m, w, v) := Scan(items, capacity, Pow2(|items|));
      Weight(items, Bits(m, |items|), |items|) == w <= capacity &&
      Value(items, Bits(m, |items|), |items|) == v
  {
    var n := |items|;
    var (m, w, v) := Scan(items, capacity, Pow2(n));
    var mask := Bits(m, n);
    var taken := Packed(items, capacity, mask, n);
    PackedPacksAlike(items, capacity, mask);
    if taken != mask {
      var j :| 0 <= j < n && taken[j] != mask[j];
      FewerBitsSmaller(taken, mask, j);
      BitsOfFromBits(taken);
      if m == 0 {
        BitsOfZero(n);
        assert false;
      }
      FromBitsOfBits(m, n);
      assert false;
    }
  }

  /**
   * The `while temp != 0` loop of `exhaustive` for one mask: lowest set bit
   * first, each item added if it still fits.
   */
  method PackMask(items: seq<Item>, capacity: nat, mask: seq<bool>) returns (weight: nat, value: nat)
    requires |mask| == |items|
    ensures (weight, value) == Pack(items, capacity, mask, |items|)
  {
    var temp := mask;
    weight, value := 0, 0;
    ghost var p := 0;
    while true in temp
      invariant |temp| == |mask| && p <= |mask|
      invariant forall j :: 0 <= j < |mask| ==> temp[j] == (mask[j] && j >= p)
      invariant (weight, value) == Pack(items, capacity, mask, p)
      decreases |mask| - p
    {
      var index := TrailingZeros(temp);
      PackSkip(items, capacity, mask, p, index);
      var item := items[index];
      if weight + item.weight <= capacity {
        weight := weight + item.weight;
        value := value + item.value;
      }
      temp := temp[index := false];
      p := index + 1;
    }
    PackSkip(items, capacity, mask, p, |mask|);
  }

  /**
   * The `while max != 0` loop that both exhaustive searches end with: adds
   * the items of the set bits of `mask`, lowest first.
   */
  method AddSetBits(knap: Knapsack, items: seq<Item>, mask: seq<bool>)
    requires |mask| == |items|
    modifies knap
    ensures knap.items == old(knap.items) + Chosen(items, mask, |items|)
    ensures knap.numItems == if Chosen(items, mask, |items|) == [] then old(knap.numItems) else |knap.items|
    ensures knap.weight == old(knap.weight)
  {
    var temp := mask;
    ghost var p := 0;
    while true in temp
      invariant |temp| == |mask| && p <= |mask|
      invariant forall j :: 0 <= j < |mask| ==> temp[j] == (mask[j] && j >= p)
      invariant knap.items == old(knap.items) + Chosen(items, mask, p)
      invariant knap.numItems == if Chosen(items, mask, p) == [] then old(knap.numItems) else |knap.items|
      invariant knap.weight == old(knap.weight)
      decreases |mask| - p
    {
      var index := TrailingZeros(temp);
      ChosenSkip(items, mask, p, index);
      knap.Add(items[index]);
      temp := temp[index := false];
      p := index + 1;
    }
    ChosenSkip(items, mask, p, |mask|);
  }

  /** Clear bits choose nothing. */
  lemma {:induction false} ChosenSkip(items: seq<Item>, mask: seq<bool>, p: nat, q: nat)
    requires |mask| == |items| && p <= q <= |items|
    requires forall j :: p <= j < q ==> !mask[j]
    ensures Chosen(items, mask, q) == Chosen(items, mask, p)
    ensures Weight(items, mask, q) == Weight(items, mask, p)
    ensures Value(items, mask, q) == Value(items, mask, p)
  {
    if q > p {
      ChosenSkip(items, mask, p, q - 1);
      assert Chosen(items, mask, q - 1) + [] == Chosen(items, mask, q - 1);
    }
  }

  /**
   * `exhaustive`: tries every mask below `2^n`, keeps the first one with the
   * largest packed value, and returns a knapsack of that mask's items. With
   * 64 items or more `2_usize.pow(n)` overflows.
   */
  method Exhaustive(k: Knapsack) returns (r: Result<Knapsack, string>)
    ensures r.Err? <==> |k.items| >= 64
    ensures r.Ok? ==> (fresh(r.value) &&
      var (m, w, _) := Scan(k.items, k.weight, Pow2(|k.items|));
      r.value.items == Chosen(k.items, Bits(m, |k.items|), |k.items|) &&
      r.value.weight == w && r.value.numItems == |r.value.items|)
  {
    var items := k.items;
    var n := |items|;
    if n >= 64 {
      return Err("attempt to multiply with overflow");
    }
    var numStates := Pow2(n);
    var max, maxWeight, maxValue := 0, 0, 0;
    for i := 0 to numStates
      invariant (max, maxWeight, maxValue) == Scan(items, k.weight, i)
    {
      var weight, value := PackMask(items, k.weight, Bits(i, n));
      if value > maxValue {
        max, maxWeight, maxValue := i, weight, value;
      }
    }
    var mask := Bits(max, n);
    ChosenSums(items, mask, n);
    assert mask[..n] == mask;
    var knap := new Knapsack(Count(mask, true), maxWeight, []);
    AddSetBits(knap, items, mask);
    return Ok(knap);
  }

  /**
   * What `exhaustive` returns is an optimal packing: it fits, its recorded
   * weight is its items' weight, and no subset that fits is worth more.
   */
  lemma ExhaustiveIsOptimal(items: seq<Item>, capacity: nat, subset: seq<bool>)
    requires Fits(items, capacity, subset)
    ensures var m := Scan(items, capacity, Pow2(|items|)).0;
      var best := Chosen(items, Bits(m, |items|), |items|);
      WeightOf(best) == Scan(items, capacity, Pow2(|items|)).1 <= capacity &&
      Value(items, subset, |items|) <= ValueOf(best)
  {
    ExhaustiveOptimal(items, capacity, subset);
    ExhaustiveWinnerFits(items, capacity);
    ChosenSums(items, Bits(Scan(items, capacity, Pow2(|items|)).0, |items|), |items|);
  }

  // --------------------------------------------------- exhaustive_pruning

  /** `S` agrees with `c` on every bit up to and including `i`. */
  predicate Extends(s: seq<bool>, c: seq<bool>, i: int)
  {
    |s| == |c| && forall j :: 0 <= j < |c| && j <= i ==> s[j] == c[j]
  }

  /** A recorded best: a mask with its own weight and value, within capacity. */
  predicate Consistent(items: seq<Item>, capacity: nat, best: (seq<bool>, nat, nat))
  {
    |best.0| == |items| && best.1 == Weight(items, best.0, |items|) <= capacity &&
    best.2 == Value(items, best.0, |items|)
  }

  /**
   * The `while temp != 0` loop of `recur`: every set bit's item, with no
   * capacity check.
   */
  method MaskTotals(items: seq<Item>, mask: seq<bool>) returns (weight: nat, value: nat)
    requires |mask| == |items|
    ensures weight == Weight(items, mask, |items|) && value == Value(items, mask, |items|)
  {
    var temp := mask;
    weight, value := 0, 0;
    ghost var p := 0;
    while true in temp
      invariant |temp| == |mask| && p <= |mask|
      invariant forall j :: 0 <= j < |mask| ==> temp[j] == (mask[j] && j >= p)
      invariant weight == Weight(items, mask, p) && value == Value(items, mask, p)
      decreases |mask| - p
    {
      var index := TrailingZeros(temp);
      ChosenSkip(items, mask, p, index);
      var item := items[index];
      weight := weight + item.weight;
      value := value + item.value;
      temp := temp[index := false];
      p := index + 1;
    }
    ChosenSkip(items, mask, p, |mask|);
  }

  /**
   * `recur(k, best, c, n, i)`: visits `c` and, when it fits, every
   * extension of `c` by bits above `i`, one branch per bit `x > i` in
   * increasing order; an overweight `c` prunes all its extensions. The best
   * is replaced only by a fitting mask of strictly greater value, so a
   * consistent best stays consistent and its value never decreases, and no
   * fitting extension of `c` is worth more than the result.
   */
  method Recur(items: seq<Item>, capacity: nat, best: (seq<bool>, nat, nat), c: seq<bool>, i: int)
    returns (r: (seq<bool>, nat, nat))
    requires |c| == |items| && -1 <= i < |items|
    requires forall j :: i < j < |c| ==> !c[j]
    ensures Consistent(items, capacity, best) ==> Consistent(items, capacity, r)
    ensures r == best || r.2 > best.2
    ensures forall s :: Extends(s, c, i) && Fits(items, capacity, s) ==> Value(items, s, |items|) <= r.2
    decreases |items| - i
  {
    var weight, value := MaskTotals(items, c);
    r := best;
    if weight <= capacity {
      if value > r.2 {
        r := (c, weight, value);
      }
      for x := i + 1 to |items|
        invariant Consistent(items, capacity, best) ==> Consistent(items, capacity, r)
        invariant r == best || r.2 > best.2
        invariant value <= r.2
        invariant forall s :: Extends(s, c, i) && Fits(items, capacity, s) && SetBetween(s, i, x) ==>
          Value(items, s, |items|) <= r.2
      {
        ghost var before := r;
        r := Recur(items, capacity, r, c[x := true], x);
        forall s | Extends(s, c, i) && Fits(items, capacity, s) && SetBetween(s, i, x + 1)
          ensures Value(items, s, |items|) <= r.2
        {
          if !SetBetween(s, i, x) {
            assert Extends(s, c[x := true], x);
          }
        }
      }
      forall s | Extends(s, c, i) && Fits(items, capacity, s)
        ensures Value(items, s, |items|) <= r.2
      {
        if !SetBetween(s, i, |items|) {
          SameBitsSameSums(items, s, c, |items|);
        }
      }
    } else {
      forall s | Extends(s, c, i) && Fits(items, capacity, s)
        ensures false
      {
        WeightMonotone(items, c, s, |items|);
      }
    }
  }

  /** Some bit of `s` strictly between `i` and `x` is set. */
  predicate SetBetween(s: seq<bool>, i: int, x: int)
  {
    exists j :: i < j < x && 0 <= j < |s| && s[j]
  }

  /**
   * Distinct branches of one `recur` call cover disjoint sets of masks, so
   * no mask is visited twice.
   */
  lemma BranchesDisjoint(c: seq<bool>, i: int, x: nat, y: nat, s: seq<bool>)
    requires i < x < y < |c|
    requires forall j :: i < j < |c| && 0 <= j ==> !c[j]
    ensures Extends(s, c[x := true], x) ==> !Extends(s, c[y := true], y)
  {
    if Extends(s, c[x := true], x) {
      assert s[x] && !c[y := true][x];
    }
  }

  /**
   * `exhaustive_pruning`: `recur` from the empty mask with nothing recorded,
   * then a knapsack of the winning mask's items. With 64 items or more the
   * progress bar's `2_u64.pow(n)` overflows.
   */
  method ExhaustivePruning(k: Knapsack) returns (r: Result<Knapsack, string>)
    ensures r.Err? <==> |k.items| >= 64
    ensures r.Ok? ==> (fresh(r.value) && r.value.numItems == |r.value.items| &&
      WeightOf(r.value.items) == r.value.weight <= k.weight &&
      (forall s :: Fits(k.items, k.weight, s) ==> Value(k.items, s, |k.items|) <= ValueOf(r.value.items)) &&
      exists mask :: |mask| == |k.items| && r.value.items == Chosen(k.items, mask, |k.items|))
  {
    var items := k.items;
    var n := |items|;
    if n >= 64 {
      return Err("attempt to multiply with overflow");
    }
    var empty := seq(n, _ => false);
    ZeroWeight(items, n);
    ZeroValue(items, n);
    assert Consistent(items, k.weight, (empty, 0, 0));
    var best := Recur(items, k.weight, (empty, 0, 0), empty, -1);
    var (m, w, _) := best;
    ChosenSums(items, m, n);
    assert m[..n] == m;
    var knap := new Knapsack(Count(m, true), w, []);
    AddSetBits(knap, items, m);
    assert knap.items == Chosen(items, m, n);
    forall s | Fits(items, k.weight, s)
      ensures Value(items, s, n) <= ValueOf(knap.items)
    {
      assert Extends(s, empty, -1);
    }
    return Ok(knap);
  }

  lemma {:induction false} ZeroValue(items: seq<Item>, p: nat)
    requires p <= |items|
    ensures Value(items, seq(|items|, _ => false), p) == 0
  {
    if p > 0 {
      ZeroValue(items, p - 1);
    }
  }

  // ------------------------------------------------------------ parse_file

  /** What `parse_file` has gathered so far: the header fields and the items. */
  datatype Contents = Contents(numItems: nat, weight: nat, items: seq<Item>)

  /** `s.strip_prefix(" ").unwrap_or(s)`: drops one leading space, if any. */
  function StripSpace(s: string): (r: string)
    ensures |s| > 0 && s[0] == ' ' ==> r == s[1..]
    ensures (|s| == 0 || s[0] != ' ') ==> r == s
  {
    if |s| > 0 && s[0] == ' ' then s[1..] else s
  }

  /**
   * One line (number `n`) of the file, split on commas. More than two
   * fields make an item from fields 0, 2 (value) and 1 (weight), each number
   * with at most one leading space; fewer fields set the item count from
   * field 0 and the capacity from field 1 without its first character. Any
   * number that does not parse panics, and so does a line with one field.
   */
  function ParseLine(acc: Contents, n: nat, line: string): (r: Result<Contents, string>)
    ensures r.Ok? && Count(line, ',') >= 2 ==>
      r.value.numItems == acc.numItems && r.value.weight == acc.weight &&
      |r.value.items| == |acc.items| + 1 && r.value.items[..|acc.items|] == acc.items &&
      r.value.items[|acc.items|].id == Split(line, ',')[0]
    ensures Count(line, ',') < 2 ==> r.Err? || r.value.items == acc.items
    ensures Count(line, ',') == 0 ==> r.Err?
    ensures var v := Split(line, ',');
      |v| > 2 ==>
        var value := ParseUsize(StripSpace(v[2]));
        var weight := ParseUsize(StripSpace(v[1]));
        (r.Ok? <==> value.Some? && weight.Some?) &&
        (r.Ok? ==> r.value.items[|acc.items|] == Item(v[0], value.value, weight.value)) &&
        (value.None? ==> r == Err("Failed to parse value on line " + Decimal(n))) &&
        (value.Some? && weight.None? ==> r == Err("Failed to parse weight on line " + Decimal(n)))
    ensures var v := Split(line, ',');
      |v| <= 2 ==>
        (r.Ok? <==> ParseUsize(v[0]).Some? && |v| == 2 && |v[1]| >= 1 && ParseUsize(v[1][1..]).Some?) &&
        (r.Ok? ==> r.value == Contents(ParseUsize(v[0]).value, ParseUsize(v[1][1..]).value, acc.items)) &&
        (ParseUsize(v[0]).None? ==> r == Err("Failed to parse number of items on line " + Decimal(n)))
  {
    var v := Split(line, ',');
    if |v| > 2 then
      match ParseUsize(StripSpace(v[2]))
      case None => Err("Failed to parse value on line " + Decimal(n))
      case Some(value) =>
        match ParseUsize(StripSpace(v[1]))
        case None => Err("Failed to parse weight on line " + Decimal(n))
        case Some(weight) => Ok(acc.(items := acc.items + [Item(v[0], value, weight)]))
    else
      match ParseUsize(v[0])
      case None => Err("Failed to parse number of items on line " + Decimal(n))
      case Some(count) =>
        if |v| < 2 then Err("index out of bounds: the len is 1 but the index is 1")
        else if |v[1]| < 1 then Err("byte index 1 is out of range")
        else
          match ParseUsize(v[1][1..])
          case None => Err("Failed to parse maximum weight on line " + Decimal(n))
          case Some(w) => Ok(acc.(numItems := count, weight := w))
  }

  /**
   * The first `m` lines as read (`None` for a line that failed to read,
   * which panics); the first panic ends the parse. Each item comes from a
   * line of its own, so there are never more items than lines.
   */
  function ParsePrefix(lines: seq<Option<string>>, m: nat): (r: Result<Contents, string>)
    requires m <= |lines|
    ensures r.Ok? ==> |r.value.items| <= m
  {
    if m == 0 then Ok(Contents(0, 0, []))
    else
      match ParsePrefix(lines, m - 1)
      case Err(e) => Err(e)
      case Ok(acc) =>
        match lines[m - 1]
        case None => Err("Failed to parse line")
        case Some(l) => ParseLine(acc, m - 1, l)
  }

  /** Once a line has panicked, later lines are never looked at. */
  lemma {:induction false} ParseAbsorbs(lines: seq<Option<string>>, m: nat, q: nat)
    requires m <= q <= |lines|
    requires ParsePrefix(lines, m).Err?
    ensures ParsePrefix(lines, q) == ParsePrefix(lines, m)
  {
    if q > m {
      ParseAbsorbs(lines, m, q - 1);
    }
  }

  /** The body of `parse_file`'s loop for line `n`: stores what the line says, or gives the panic message. */
  method ReadLine(knap: Knapsack, n: nat, l: string) returns (err: Option<string>)
    modifies knap
    ensures err.None? ==>
      ParseLine(old(Contents(knap.numItems, knap.weight, knap.items)), n, l) == Ok(Contents(knap.numItems, knap.weight, knap.items))
    ensures err.Some? ==> ParseLine(old(Contents(knap.numItems, knap.weight, knap.items)), n, l) == Err(err.value)
  {
    var v := Split(l, ',');
    if |v| > 2 {
      var value := ParseUsize(StripSpace(v[2]));
      if value.None? {
        return Some("Failed to parse value on line " + Decimal(n));
      }
      var weight := ParseUsize(StripSpace(v[1]));
      if weight.None? {
        return Some("Failed to parse weight on line " + Decimal(n));
      }
      knap.items := knap.items + [Item(v[0], value.value, weight.value)];
    } else {
      var count := ParseUsize(v[0]);
      if count.None? {
        return Some("Failed to parse number of items on line " + Decimal(n));
      }
      knap.numItems := count.value;
      if |v| < 2 {
        return Some("index out of bounds: the len is 1 but the index is 1");
      }
      if |v[1]| < 1 {
        return Some("byte index 1 is out of range");
      }
      var w := ParseUsize(v[1][1..]);
      if w.None? {
        return Some("Failed to parse maximum weight on line " + Decimal(n));
      }
      knap.weight := w.value;
    }
    return None;
  }

  /**
   * `parse_file` over the lines of the file as read: items are pushed
   * straight onto the item list, so `num_items` is whatever the header line
   * says, not the number of items read.
   */
  method ParseFile(lines: seq<Option<string>>) returns (r: Result<Knapsack, string>)
    ensures r.Err? <==> ParsePrefix(lines, |lines|).Err?
    ensures r.Err? ==> r.error == ParsePrefix(lines, |lines|).error
    ensures r.Ok? ==> (fresh(r.value) &&
      var c := ParsePrefix(lines, |lines|).value;
      r.value.numItems == c.numItems && r.value.weight == c.weight && r.value.items == c.items)
  {
    var knap := new Knapsack(0, 0, []);
    for n := 0 to |lines|
      invariant ParsePrefix(lines, n) == Ok(Contents(knap.numItems, knap.weight, knap.items))
    {
      if lines[n].None? {
        ParseAbsorbs(lines, n + 1, |lines|);
        return Err("Failed to parse line");
      }
      var err := ReadLine(knap, n, lines[n].value);
      if err.Some? {
        ParseAbsorbs(lines, n + 1, |lines|);
        return Err(err.value);
      }
    }
    return Ok(knap);
  }
}
