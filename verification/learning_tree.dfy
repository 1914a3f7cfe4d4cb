/**
 * `build_tree` of the tic-tac-toe learner (learning/src/main.rs): the table
 * of move probabilities, keyed by board string, for every board that can
 * be reached from a starting board. A board still in play starts with the
 * same probability on every blank cell and none on an occupied one; a
 * finished board has no probability anywhere.
 */
module LearningTree {
  import opened Text
  import opened TicTacToe

  /** Every move uses up one blank, so the recursion ends. */
  lemma MovesFewerBlanks(t: TicTacToe)
    requires Mark(t.next) != BLANK
    ensures Successors(t).Some? ==> forall j :: 0 <= j < |Successors(t).value| ==>
      Mark(Successors(t).value[j].1.next) != BLANK &&
      Count(Successors(t).value[j].1.board, BLANK) < Count(t.board, BLANK)
  {
    if Successors(t).Some? {
      forall j | 0 <= j < |Successors(t).value|
        ensures Count(Successors(t).value[j].1.board, BLANK) < Count(t.board, BLANK)
      {
        var i := Successors(t).value[j].0;
        CountUpdate(t.board, i, Mark(t.next), BLANK);
      }
    }
  }

  /** The games reached from `t`, `t` included, following `moves`. */
  function Reach(t: TicTacToe): (r: set<TicTacToe>)
    requires Mark(t.next) != BLANK
    ensures t in r
    decreases Count(t.board, BLANK), 1, 0
  {
    if Successors(t).None? then {t}
    else
      var ms := Successors(t).value;
      MovesFewerBlanks(t);
      {t} + Below(ms, |ms|, Count(t.board, BLANK))
  }

  /** Every game of `ms` is still to be played by X or O and has fewer than `bound` blanks. */
  predicate Descending(ms: seq<(nat, TicTacToe)>, bound: nat)
  {
    forall j :: 0 <= j < |ms| ==> Mark(ms[j].1.next) != BLANK && Count(ms[j].1.board, BLANK) < bound
  }

  /** The games reached from the first `k` moves, each with fewer than `bound` blanks. */
  function Below(ms: seq<(nat, TicTacToe)>, k: nat, bound: nat): set<TicTacToe>
    requires k <= |ms|
    requires Descending(ms, bound)
    decreases bound, 0, k
  {
    if k == 0 then {} else Below(ms, k - 1, bound) + Reach(ms[k - 1].1)
  }

  /** The map keys of a set of games. */
  function Keys(games: set<TicTacToe>): set<string>
  {
    set s | s in games :: Format(s)
  }

  /**
   * The probabilities of a board in play with `n` moves: one over `n` on
   * each blank cell, none on an occupied one.
   */
  function Row(b: Board, n: nat): seq<real>
  {
    seq(9, j requires 0 <= j < 9 => if b[j] != BLANK then 0.0 else if n > 0 then 1.0 / n as real else 0.0)
  }

  lemma KeysUnion(a: set<TicTacToe>, b: set<TicTacToe>)
    ensures Keys(a + b) == Keys(a) + Keys(b)
  {
  }

  /** The probabilities `build_tree` stores for a board. */
  function Entry(t: TicTacToe): seq<real>
  {
    match Successors(t)
    case None => seq(9, _ => 0.0)
    case Some(ms) => Row(t.board, |ms|)
  }

  /** Number of positive entries. */
  function Positive(ps: seq<real>): nat
  {
    if ps == [] then 0 else (if ps[0] > 0.0 then 1 else 0) + Positive(ps[1..])
  }

  function Sum(ps: seq<real>): real
  {
    if ps == [] then 0.0 else ps[0] + Sum(ps[1..])
  }

  /**
   * The stored probabilities: none on a finished board; on a board in play
   * one over the number of moves on each blank cell and none elsewhere.
   */
  lemma EntryShape(t: TicTacToe)
    ensures |Entry(t)| == 9
    ensures !Verdict(t.board).Playing? ==> forall j :: 0 <= j < 9 ==> Entry(t)[j] == 0.0
    ensures Verdict(t.board).Playing? ==> forall j :: 0 <= j < 9 ==>
      Entry(t)[j] == if t.board[j] == BLANK then 1.0 / Count(t.board, BLANK) as real else 0.0
  {
    SuccessorsAreBlanks(t);
  }

  /** Positive entries are exactly the blank cells of `s`. */
  lemma {:induction false} PositiveBlanks(s: seq<Byte>, ps: seq<real>, p: real)
    requires |ps| == |s| && p > 0.0
    requires forall j :: 0 <= j < |s| ==> ps[j] == if s[j] == BLANK then p else 0.0
    ensures Positive(ps) == Count(s, BLANK)
  {
    if s != [] {
      BlanksTail(s, ps, p);
      PositiveBlanks(s[1..], ps[1..], p);
    }
  }

  /** Non-negative entries have a non-negative sum, and a positive one when any entry is positive. */
  lemma {:induction false} SumPositive(ps: seq<real>)
    requires forall j :: 0 <= j < |ps| ==> ps[j] >= 0.0
    ensures Sum(ps) >= 0.0
    ensures Positive(ps) > 0 ==> Sum(ps) > 0.0
  {
    if ps != [] {
      assert forall j :: 0 <= j < |ps| - 1 ==> ps[1..][j] == ps[j + 1];
      SumPositive(ps[1..]);
    }
  }

  lemma BlanksTail(s: seq<Byte>, ps: seq<real>, p: real)
    requires |ps| == |s| > 0
    requires forall j :: 0 <= j < |s| ==> ps[j] == if s[j] == BLANK then p else 0.0
    ensures forall j :: 0 <= j < |s| - 1 ==> ps[1..][j] == if s[1..][j] == BLANK then p else 0.0
  {
    forall j | 0 <= j < |s| - 1
      ensures ps[1..][j] == if s[1..][j] == BLANK then p else 0.0
    {
      assert ps[1..][j] == ps[j + 1] && s[1..][j] == s[j + 1];
    }
  }

  /** A row for `n` moves on a board with `n` blanks has `n` positive entries and a positive total. */
  lemma RowChecks(b: Board, n: nat)
    requires n == Count(b, BLANK) > 0
    ensures Positive(Row(b, n)) == n
    ensures Sum(Row(b, n)) > 0.0
  {
    var p := 1.0 / n as real;
    PositiveBlanks(b, Row(b, n), p);
    SumPositive(Row(b, n));
    assert n as real * p > 0.0;
  }

  /**
   * The two checks `build_tree` makes before inserting a board in play:
   * as many positive entries as moves, and a positive total unless the
   * board is full.
   */
  lemma EntryChecks(t: TicTacToe)
    requires Successors(t).Some?
    ensures Positive(Entry(t)) == |Successors(t).value|
    ensures Sum(Entry(t)) > 0.0 || BLANK !in t.board
  {
    SuccessorsAreBlanks(t);
    RowChecks(t.board, |Successors(t).value|);
  }

  /** Boards with the same key store the same probabilities. */
  lemma SameKeySameEntry(t: TicTacToe, u: TicTacToe)
    requires Format(t) == Format(u)
    ensures Entry(t) == Entry(u)
  {
    FormatInjective(t, u);
    PlacementsCount(t, 9);
    PlacementsCount(u, 9);
  }

  /**
   * The `probs` array of `build_tree` for a board with `n` moves: one over
   * `n` everywhere, then zero on every occupied cell.
   */
  method Probabilities(b: Board, n: nat) returns (row: seq<real>)
    ensures row == Row(b, n)
  {
    var p := if n > 0 then 1.0 / n as real else 0.0;
    row := seq(9, _ => p);
    for j := 0 to 9
      invariant |row| == 9
      invariant forall i :: 0 <= i < 9 ==> row[i] == if i < j || b[i] == BLANK then Row(b, n)[i] else p
    {
      if b[j] != BLANK {
        row := row[j := 0.0];
      }
    }
  }

  /** The table of move probabilities, keyed by board string. */
  class Tree {
    var probs: map<string, seq<real>>

    constructor ()
      ensures probs == map[]
    {
      probs := map[];
    }

    /**
     * `build_tree`: stores every board reachable from `t` under its key,
     * with the probabilities `Entry` gives it, and leaves every other key
     * as it was.
     */
    method Build(t: TicTacToe)
      requires Mark(t.next) != BLANK
      modifies this
      ensures probs.Keys == old(probs).Keys + Keys(Reach(t))
      ensures forall s :: s in Reach(t) ==> Format(s) in probs && probs[Format(s)] == Entry(s)
      ensures forall key :: key in old(probs) && key !in Keys(Reach(t)) ==> probs[key] == old(probs)[key]
      decreases Count(t.board, BLANK), 1
    {
      var moves := Moves(t);
      match moves
      case None =>
        probs := probs[Format(t) := seq(9, _ => 0.0)];
      case Some(ms) =>
        var row := Probabilities(t.board, |ms|);
        assert row == Entry(t);
        EntryChecks(t);
        probs := probs[Format(t) := row];
        MovesFewerBlanks(t);
        BuildBelow(t, ms);
        Finished(old(probs), probs, t, ms);
    }

    /** The loop of `build_tree` over the moves `ms` of `t`, whose own entry is already stored. */
    method BuildBelow(t: TicTacToe, ms: seq<(nat, TicTacToe)>)
      requires Descending(ms, Count(t.board, BLANK))
      requires Format(t) in probs && probs[Format(t)] == Entry(t)
      modifies this
      ensures Loaded(probs, old(probs), t, Below(ms, |ms|, Count(t.board, BLANK)))
      decreases Count(t.board, BLANK), 0
    {
      ghost var start := probs;
      ghost var bound := Count(t.board, BLANK);
      for k := 0 to |ms|
        invariant Loaded(probs, start, t, Below(ms, k, bound))
      {
        ghost var mid := probs;
        Build(ms[k].1);
        StepBelow(start, mid, probs, t, ms, k, bound);
      }
    }
  }

  /**
   * `probs` holds, over `start`, the keys of `games`, the right entry for
   * `t` and for every game of `games`, and every other key of `start` as it was.
   */
  ghost predicate Loaded(probs: map<string, seq<real>>, start: map<string, seq<real>>, t: TicTacToe, games: set<TicTacToe>)
  {
    && probs.Keys == start.Keys + Keys(games)
    && Format(t) in probs && probs[Format(t)] == Entry(t)
    && (forall s :: s in games ==> Format(s) in probs && probs[Format(s)] == Entry(s))
    && (forall key :: key in start && key !in Keys(games) ==> probs[key] == start[key])
  }

  lemma StepBelow(start: map<string, seq<real>>, mid: map<string, seq<real>>, after: map<string, seq<real>>,
                  t: TicTacToe, ms: seq<(nat, TicTacToe)>, k: nat, bound: nat)
    requires k < |ms| && Descending(ms, bound)
    requires Loaded(mid, start, t, Below(ms, k, bound))
    requires after.Keys == mid.Keys + Keys(Reach(ms[k].1))
    requires forall s :: s in Reach(ms[k].1) ==> Format(s) in after && after[Format(s)] == Entry(s)
    requires forall key :: key in mid && key !in Keys(Reach(ms[k].1)) ==> after[key] == mid[key]
    ensures Loaded(after, start, t, Below(ms, k + 1, bound))
  {
    Step(start, mid, after, t, Below(ms, k, bound), Reach(ms[k].1));
  }

  /** Having loaded `t` and the games below its moves is having loaded every game reached from `t`. */
  lemma Finished(start: map<string, seq<real>>, probs: map<string, seq<real>>, t: TicTacToe, ms: seq<(nat, TicTacToe)>)
    requires Mark(t.next) != BLANK && Successors(t).Some? && Successors(t).value == ms
    requires Descending(ms, Count(t.board, BLANK))
    requires Loaded(probs, start[Format(t) := Entry(t)], t, Below(ms, |ms|, Count(t.board, BLANK)))
    ensures probs.Keys == start.Keys + Keys(Reach(t))
    ensures forall s :: s in Reach(t) ==> Format(s) in probs && probs[Format(s)] == Entry(s)
    ensures forall key :: key in start && key !in Keys(Reach(t)) ==> probs[key] == start[key]
  {
    Extend(start, probs, t, Below(ms, |ms|, Count(t.board, BLANK)));
  }

  /** Loading `t` over `start`, then the games `below` over that, loads `{t} + below` over `start`. */
  lemma Extend(start: map<string, seq<real>>, probs: map<string, seq<real>>, t: TicTacToe, below: set<TicTacToe>)
    requires Loaded(probs, start[Format(t) := Entry(t)], t, below)
    ensures probs.Keys == start.Keys + Keys({t} + below)
    ensures forall s :: s in {t} + below ==> Format(s) in probs && probs[Format(s)] == Entry(s)
    ensures forall key :: key in start && key !in Keys({t} + below) ==> probs[key] == start[key]
  {
    Overwrite(start, probs, Format(t), Entry(t), Keys(below));
    KeysAdd(t, below);
  }

  /** The keys of `{t} + below`: the key of `t` and those of `below`. */
  lemma KeysAdd(t: TicTacToe, below: set<TicTacToe>)
    ensures Keys({t} + below) == {Format(t)} + Keys(below)
  {
    assert Keys({t}) == {Format(t)};
    KeysUnion({t}, below);
  }

  /** What a map built on `start` with `key` set keeps of `start`. */
  lemma Overwrite(start: map<string, seq<real>>, probs: map<string, seq<real>>, key: string, e: seq<real>, keys: set<string>)
    requires probs.Keys == start[key := e].Keys + keys
    requires forall k :: k in start[key := e] && k !in keys ==> probs[k] == start[key := e][k]
    ensures probs.Keys == start.Keys + ({key} + keys)
    ensures forall k :: k in start && k !in {key} + keys ==> probs[k] == start[k]
  {
    assert start[key := e].Keys == start.Keys + {key};
    forall k | k in start && k !in {key} + keys
      ensures probs[k] == start[k]
    {
      assert k != key && k in start[key := e];
    }
  }

  /** Storing the games of `b` after those of `a` keeps what was stored right and loads `b` as well. */
  lemma Step(start: map<string, seq<real>>, mid: map<string, seq<real>>, after: map<string, seq<real>>,
             t: TicTacToe, a: set<TicTacToe>, b: set<TicTacToe>)
    requires Loaded(mid, start, t, a)
    requires after.Keys == mid.Keys + Keys(b)
    requires forall s :: s in b ==> Format(s) in after && after[Format(s)] == Entry(s)
    requires forall key :: key in mid && key !in Keys(b) ==> after[key] == mid[key]
    ensures Loaded(after, start, t, a + b)
  {
    KeysKept(start, mid, after, a, b);
    if t !in b {
      StillRight(mid, after, t, b);
    }
    forall s | s in a + b
      ensures Format(s) in after && after[Format(s)] == Entry(s)
    {
      if s !in b {
        StillRight(mid, after, s, b);
      }
    }
  }

  /** A game stored right before storing `b` is still stored right after. */
  lemma StillRight(mid: map<string, seq<real>>, after: map<string, seq<real>>, s: TicTacToe, b: set<TicTacToe>)
    requires Format(s) in mid && mid[Format(s)] == Entry(s)
    requires after.Keys == mid.Keys + Keys(b)
    requires forall u :: u in b ==> Format(u) in after && after[Format(u)] == Entry(u)
    requires forall key :: key in mid && key !in Keys(b) ==> after[key] == mid[key]
    ensures Format(s) in after && after[Format(s)] == Entry(s)
  {
    if Format(s) in Keys(b) {
      var u :| u in b && Format(u) == Format(s);
      SameKeySameEntry(s, u);
    }
  }

  /** Storing the games of `b` after those of `a` keeps every other key of `start` as it was. */
  lemma KeysKept(start: map<string, seq<real>>, mid: map<string, seq<real>>, after: map<string, seq<real>>, a: set<TicTacToe>, b: set<TicTacToe>)
    requires mid.Keys == start.Keys + Keys(a) && after.Keys == mid.Keys + Keys(b)
    requires forall key :: key in start && key !in Keys(a) ==> mid[key] == start[key]
    requires forall key :: key in mid && key !in Keys(b) ==> after[key] == mid[key]
    ensures after.Keys == start.Keys + Keys(a + b)
    ensures forall key :: key in start && key !in Keys(a + b) ==> after[key] == start[key]
  {
    KeysUnion(a, b);
  }
}
