/**
 * Rust's stable `sort_by` with a comparator that is a total preorder,
 * modelled as insertion sort: later elements never overtake earlier ones
 * they compare equal to.
 */
module Sorting {

  /** `le` orders every pair and is transitive. */
  ghost predicate TotalPreorder<T(!new)>(le: (T, T) -> bool)
  {
    (forall a, b :: le(a, b) || le(b, a)) &&
    (forall a, b, c :: le(a, b) && le(b, c) ==> le(a, c))
  }

  /** Every element is `le` every later element. */
  ghost predicate Sorted<T>(s: seq<T>, le: (T, T) -> bool)
  {
    forall i, j :: 0 <= i < j < |s| ==> le(s[i], s[j])
  }

  /** `x` placed before the first element it is `le` to. */
  function Insert<T(!new)>(x: T, s: seq<T>, le: (T, T) -> bool): (r: seq<T>)
    ensures multiset(r) == multiset(s) + multiset{x}
  {
    if s == [] then [x]
    else if le(x, s[0]) then [x] + s
    else
      assert s == [s[0]] + s[1..];
      [s[0]] + Insert(x, s[1..], le)
  }

  /** Inserting into a sorted sequence keeps it sorted. */
  lemma {:induction false} InsertSorted<T(!new)>(x: T, s: seq<T>, le: (T, T) -> bool)
    requires TotalPreorder(le)
    requires Sorted(s, le)
    ensures Sorted(Insert(x, s, le), le)
  {
    if s != [] && !le(x, s[0]) {
      var rest := Insert(x, s[1..], le);
      InsertSorted(x, s[1..], le);
      assert le(s[0], x);
      forall j | 0 <= j < |rest| ensures le(s[0], rest[j]) {
        assert rest[j] in multiset(rest);
        if rest[j] != x {
          assert rest[j] in s[1..];
        }
      }
    }
  }

  /** `s` sorted by `le`: a sorted rearrangement (its stability is `SortByStable`). */
  function SortBy<T(!new)>(s: seq<T>, le: (T, T) -> bool): (r: seq<T>)
    requires TotalPreorder(le)
    ensures multiset(r) == multiset(s)
    ensures |r| == |s|
    ensures Sorted(r, le)
  {
    if s == [] then []
    else
      var t := SortBy(s[1..], le);
      var r := Insert(s[0], t, le);
      InsertSorted(s[0], t, le);
      assert s == [s[0]] + s[1..];
      assert multiset(r) == multiset(s);
      assert |r| == |multiset(r)| == |multiset(s)| == |s|;
      r
  }

  /** The elements of `s` that `le` ranks equal to `x`, in the order `s` holds them. */
  function Class<T>(s: seq<T>, x: T, le: (T, T) -> bool): (c: seq<T>)
    ensures |c| <= |s|
  {
    if s == [] then []
    else (if le(s[0], x) && le(x, s[0]) then [s[0]] else []) + Class(s[1..], x, le)
  }

  /**
   * Inserting `x` adds it at the front of its own class and leaves every
   * other class alone: `x` only passes elements it is not `le` to.
   */
  lemma {:induction false} InsertClass<T(!new)>(x: T, t: seq<T>, y: T, le: (T, T) -> bool)
    requires TotalPreorder(le)
    ensures Class(Insert(x, t, le), y, le) == (if le(x, y) && le(y, x) then [x] else []) + Class(t, y, le)
  {
    if t == [] {
      ClassCons(x, [], y, le);
    } else if le(x, t[0]) {
      ClassCons(x, t, y, le);
    } else {
      var rest := Insert(x, t[1..], le);
      assert Insert(x, t, le) == [t[0]] + rest;
      ClassCons(t[0], rest, y, le);
      InsertClass(x, t[1..], y, le);
      assert t == [t[0]] + t[1..];
      ClassCons(t[0], t[1..], y, le);
      var first := t[0];
      assert !(le(x, y) && le(y, first));
    }
  }

  /** The class of `a` followed by `t`. */
  lemma ClassCons<T>(a: T, t: seq<T>, y: T, le: (T, T) -> bool)
    ensures Class([a] + t, y, le) == (if le(a, y) && le(y, a) then [a] else []) + Class(t, y, le)
  {
    assert ([a] + t)[1..] == t;
  }

  /**
   * `sort_by` is stable: within every class of elements ranked equal, the
   * sorted sequence keeps the order of the input.
   */
  lemma {:induction false} SortByStable<T(!new)>(s: seq<T>, y: T, le: (T, T) -> bool)
    requires TotalPreorder(le)
    ensures Class(SortBy(s, le), y, le) == Class(s, y, le)
  {
    if s != [] {
      SortByStable(s[1..], y, le);
      InsertClass(s[0], SortBy(s[1..], le), y, le);
    }
  }

  /** Strictly increasing. */
  predicate Increasing(s: seq<int>)
  {
    forall i, j :: 0 <= i < j < |s| ==> s[i] < s[j]
  }

  /** No value occurs twice. */
  predicate Distinct<T(==)>(s: seq<T>)
  {
    forall i, j :: 0 <= i < j < |s| ==> s[i] != s[j]
  }

  /** `slice::sort` on integers: ascending order, same elements. */
  function SortInts(s: seq<int>): (r: seq<int>)
    ensures multiset(r) == multiset(s)
    ensures |r| == |s|
    ensures forall i, j :: 0 <= i < j < |r| ==> r[i] <= r[j]
  {
    SortBy(s, (a: int, b: int) => a <= b)
  }

  /** Sorting distinct values gives a strictly increasing sequence of the same values. */
  lemma SortDistinct(s: seq<int>)
    requires Distinct(s)
    ensures Increasing(SortInts(s))
    ensures forall x :: x in SortInts(s) <==> x in s
  {
    var r := SortInts(s);
    forall x ensures x in r <==> x in s {
      assert x in r <==> x in multiset(r);
    }
    DistinctMultiset(s);
    forall i, j | 0 <= i < j < |r| ensures r[i] < r[j] {
      if r[i] == r[j] {
        MultisetTwice(r, i, j);
      }
    }
  }

  lemma {:induction false} DistinctMultiset<T>(s: seq<T>)
    requires Distinct(s)
    ensures forall x :: multiset(s)[x] <= 1
  {
    if s != [] {
      assert Distinct(s[1..]);
      DistinctMultiset(s[1..]);
      assert s == [s[0]] + s[1..];
      assert s[0] !in s[1..];
    }
  }

  lemma MultisetTwice<T>(s: seq<T>, i: nat, j: nat)
    requires i < j < |s|
    requires s[i] == s[j]
    ensures multiset(s)[s[i]] >= 2
  {
    assert s == s[..i] + [s[i]] + s[i + 1..j] + [s[j]] + s[j + 1..];
  }
}
