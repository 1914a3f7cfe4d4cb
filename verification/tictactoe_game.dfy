/**
 * The Python tic-tac-toe game (learning/python/game.py): a nine-character
 * state over " XO", checked when it is built; the moves from a state; the
 * verdict on it; and a 24-bit encoding of a state that decodes back to it.
 *
 * Python's binary strings (`bin`, `zfill`, `int(_, 2)`) are modelled as
 * sequences of booleans, most significant digit first (module `Binary`).
 */
module Game {
  import opened Wrappers
  import opened Text
  import Engine = TicTacToe
  import opened Binary

  /** `Status`; the learner's game never reports `lost`. */
  datatype Status = Playing | Drawn | Won | Lost

  /** What the constructor is given: a string, an encoded integer, or anything else. */
  datatype Arg = Str(s: string) | Int(n: nat) | Other

  /** A board as the game holds it: nine characters, row by row. */
  type State = s: string | |s| == 9 witness "         "

  datatype TicTacToe = TicTacToe(state: State, next: char)

  const EMPTY: char := ' '

  /** X moves when both players have as many marks, O otherwise. */
  function NextOf(s: string): char
  {
    if Count(s, 'X') == Count(s, 'O') then 'X' else 'O'
  }

  /** Nine characters from " XO", with as many X as O or one more. */
  predicate Valid(s: string)
  {
    |s| == 9 && (forall i :: 0 <= i < |s| ==> s[i] in " XO") &&
    (Count(s, 'X') == Count(s, 'O') || Count(s, 'X') == Count(s, 'O') + 1)
  }

  /**
   * `TicTacToe(state)`: a string is checked for length, alphabet and
   * balance, in that order; an integer is decoded without any check; any
   * other argument is refused.
   */
  function Make(arg: Arg): (r: Result<TicTacToe, string>)
    ensures arg.Other? ==> r.Err?
    ensures arg.Str? ==> (r.Ok? <==> Valid(arg.s))
    ensures arg.Str? && r.Ok? ==> r.value.state == arg.s
    ensures arg.Int? ==> r.Ok? && r.value.state == DecodeSpec(arg.n)
    ensures r.Ok? ==> r.value.next == NextOf(r.value.state)
  {
    match arg
    case Str(s) =>
      if |s| != 9 then Err("ValueError: Invalid state: expected 9 characters, got " + Decimal(|s|))
      else if !(forall i :: 0 <= i < |s| ==> s[i] in " XO") then Err("ValueError: Invalid state: expected only 'X', 'O' or ' '")
      else if !(Count(s, 'X') == Count(s, 'O') || Count(s, 'X') == Count(s, 'O') + 1) then
        Err("ValueError: Invalid state: expected # of X's - # of O's to be 0 or 1")
      else Ok(TicTacToe(s, NextOf(s)))
    case Int(n) =>
      var s := DecodeSpec(n);
      Ok(TicTacToe(s, NextOf(s)))
    case Other => Err("TypeError: Invalid state: expected str or int")
  }

  /** `__str__`, which appends the nine cells one by one. */
  method Show(g: TicTacToe) returns (board: string)
    ensures board == g.state
  {
    board := "";
    for i := 0 to 9
      invariant board == g.state[..i]
    {
      board := board + [g.state[i]];
    }
    assert g.state[..9] == g.state;
  }

  /** A state that was accepted is accepted again from its printed form. */
  lemma ShowMake(s: string)
    requires Make(Str(s)).Ok?
    ensures Make(Str(Make(Str(s)).value.state)) == Make(Str(s))
  {
  }

  // ------------------------------------------------------------ moves

  /** `s[:m]` for an index `m` that Python accepts. */
  function SliceTo(s: State, m: int): string
    requires -9 <= m < 9
  {
    if m < 0 then s[..9 + m] else s[..m]
  }

  /** `s[k:]` for `-9 < k <= 9`. */
  function SliceFrom(s: State, k: int): string
    requires -9 < k <= 9
  {
    if k < 0 then s[9 + k..] else s[k..]
  }

  /**
   * `move`: an index outside the string fails, an occupied cell is refused,
   * and otherwise the mover's mark replaces the cell and the result is
   * built (and checked) as a new game. Negative indices count from the
   * end, as Python's do.
   */
  function Move(g: TicTacToe, m: int): (r: Result<TicTacToe, string>)
    ensures !(-9 <= m < 9) ==> r == Err("IndexError: string index out of range")
    ensures 0 <= m < 9 && g.state[m] != EMPTY ==> r == Err("ValueError: Invalid move")
    ensures 0 <= m < 9 && r.Ok? ==> r.value.state == g.state[m := g.next]
    ensures r.Ok? ==> Valid(r.value.state) && r.value.next == NextOf(r.value.state)
  {
    if m < -9 || m >= 9 then Err("IndexError: string index out of range")
    else if g.state[if m < 0 then m + 9 else m] != EMPTY then Err("ValueError: Invalid move")
    else
      var s := SliceTo(g.state, m) + [g.next] + SliceFrom(g.state, m + 1);
      assert 0 <= m ==> s == g.state[m := g.next] by {
        if 0 <= m {
          Placed(g.state, m, g.next);
        }
      }
      Make(Str(s))
  }

  /** Placing a mark on an empty cell of a valid state keeps it valid. */
  lemma PlaceValid(s: State, i: nat)
    requires Valid(s) && i < 9 && s[i] == EMPTY
    ensures Valid(s[i := NextOf(s)])
    ensures Count(s[i := NextOf(s)], EMPTY) + 1 == Count(s, EMPTY)
  {
    CountUpdate(s, i, NextOf(s), 'X');
    CountUpdate(s, i, NextOf(s), 'O');
    CountUpdate(s, i, NextOf(s), EMPTY);
  }

  /**
   * On a valid game, `move` to an empty cell in range yields the state
   * with the mover's mark there and nothing else changed, and that game
   * is valid; an occupied cell is refused.
   */
  lemma MovePlaces(g: TicTacToe, m: int)
    requires Valid(g.state) && g.next == NextOf(g.state) && 0 <= m < 9
    ensures g.state[m] != EMPTY ==> Move(g, m) == Err("ValueError: Invalid move")
    ensures g.state[m] == EMPTY ==>
      Move(g, m).Ok? && Move(g, m).value.state == g.state[m := g.next] && Valid(Move(g, m).value.state)
  {
    if g.state[m] == EMPTY {
      Placed(g.state, m, g.next);
      PlaceValid(g.state, m);
    }
  }

  /** The slices around cell `m` with `c` between them: the state with `c` at `m`. */
  lemma Placed(s: State, m: nat, c: char)
    requires m < 9
    ensures SliceTo(s, m) + [c] + SliceFrom(s, m + 1) == s[m := c]
  {
    var t := SliceTo(s, m) + [c] + SliceFrom(s, m + 1);
    assert |t| == 9;
    forall i | 0 <= i < 9
      ensures t[i] == s[m := c][i]
    {
    }
  }

  /**
   * Python's negative indices: `-9 .. -2` play the same cell as their
   * positive counterparts, while `-1` on an empty last cell builds an
   * 18-character string, which the constructor refuses.
   */
  lemma MoveNegative(g: TicTacToe, m: int)
    requires -9 <= m < 0
    ensures m < -1 ==> Move(g, m) == Move(g, m + 9)
    ensures m == -1 && g.state[8] == EMPTY ==> Move(g, m).Err?
  {
    if m == -1 && g.state[8] == EMPTY {
      assert |SliceTo(g.state, m) + [g.next] + SliceFrom(g.state, m + 1)| == 18;
    }
  }

  /** `[self.move(i) for i in range(p) if self.state[i] == " "]`, stopping at the first failure. */
  function Moves(g: TicTacToe, p: nat): (r: Result<seq<TicTacToe>, string>)
    requires p <= 9
    ensures r.Ok? ==> |r.value| == Count(g.state[..p], EMPTY)
    ensures r.Ok? ==> forall k :: 0 <= k < |r.value| ==> Valid(r.value[k].state)
  {
    if p == 0 then Ok([])
    else
      CountPrefixStep(g.state, p);
      match Moves(g, p - 1)
      case Err(e) => Err(e)
      case Ok(l) =>
        if g.state[p - 1] != EMPTY then Ok(l)
        else match Move(g, p - 1)
          case Err(e) => Err(e)
          case Ok(n) =>
            assert forall k :: 0 <= k < |l| ==> (l + [n])[k] == l[k];
            Ok(l + [n])
  }

  /** `numMoves`. */
  function NumMoves(g: TicTacToe): (n: nat)
    ensures n <= 9
    ensures n == 0 <==> EMPTY !in g.state
  {
    Count(g.state, EMPTY)
  }

  /** On a valid game, iteration succeeds and yields one game per empty cell. */
  lemma {:induction false} MovesFromValid(g: TicTacToe, p: nat)
    requires Valid(g.state) && g.next == NextOf(g.state) && p <= 9
    ensures Moves(g, p).Ok?
    ensures |Moves(g, p).value| == Count(g.state[..p], EMPTY)
  {
    if p > 0 {
      MovesFromValid(g, p - 1);
      CountPrefixStep(g.state, p);
      if g.state[p - 1] == EMPTY {
        MovePlaces(g, p - 1);
      }
      MovesStep(g, p);
    }
  }

  /** One more cell: an occupied one adds nothing, an empty one adds its move. */
  lemma MovesStep(g: TicTacToe, p: nat)
    requires 0 < p <= 9 && Moves(g, p - 1).Ok?
    ensures g.state[p - 1] != EMPTY ==> Moves(g, p) == Moves(g, p - 1)
    ensures g.state[p - 1] == EMPTY && Move(g, p - 1).Ok? ==>
      Moves(g, p) == Ok(Moves(g, p - 1).value + [Move(g, p - 1).value])
  {
  }

  /** The count over a prefix one longer. */
  lemma CountPrefixStep(s: State, p: nat)
    requires 0 < p <= 9
    ensures Count(s[..p], EMPTY) == Count(s[..p - 1], EMPTY) + (if s[p - 1] == EMPTY then 1 else 0)
  {
    assert s[..p] == s[..p - 1] + [s[p - 1]];
    CountAppend(s[..p - 1], [s[p - 1]], EMPTY);
  }

  /** On a valid game, every game iteration yields is valid and has one empty cell fewer. */
  lemma {:induction false} MovesValid(g: TicTacToe, p: nat)
    requires Valid(g.state) && g.next == NextOf(g.state) && p <= 9
    ensures Moves(g, p).Ok?
    ensures forall k :: 0 <= k < |Moves(g, p).value| ==>
      Valid(Moves(g, p).value[k].state) && NumMoves(Moves(g, p).value[k]) + 1 == NumMoves(g)
  {
    MovesFromValid(g, p);
    if p > 0 {
      MovesValid(g, p - 1);
      var l := Moves(g, p - 1).value;
      MovesStep(g, p);
      if g.state[p - 1] == EMPTY {
        MovePlaces(g, p - 1);
        PlaceValid(g.state, p - 1);
        ChildrenAppend(g, l, Move(g, p - 1).value);
      }
    }
  }

  /** Appending one more valid game with one empty cell fewer keeps the property for the whole list. */
  lemma ChildrenAppend(g: TicTacToe, l: seq<TicTacToe>, n: TicTacToe)
    requires forall k :: 0 <= k < |l| ==> Valid(l[k].state) && NumMoves(l[k]) + 1 == NumMoves(g)
    requires Valid(n.state) && NumMoves(n) + 1 == NumMoves(g)
    ensures forall k :: 0 <= k < |l + [n]| ==> Valid((l + [n])[k].state) && NumMoves((l + [n])[k]) + 1 == NumMoves(g)
  {
    forall k | 0 <= k < |l + [n]|
      ensures Valid((l + [n])[k].state) && NumMoves((l + [n])[k]) + 1 == NumMoves(g)
    {
      if k < |l| {
        assert (l + [n])[k] == l[k];
      }
    }
  }

  /** `numMoves` counts the games `__iter__` yields. */
  lemma IterCount(g: TicTacToe)
    requires Valid(g.state) && g.next == NextOf(g.state)
    ensures Moves(g, 9).Ok? && |Moves(g, 9).value| == NumMoves(g)
  {
    MovesFromValid(g, 9);
    assert g.state[..9] == g.state;
  }

  // ------------------------------------------------------------ status

  /** Three equal non-empty cells. */
  predicate Three(s: State, a: nat, b: nat, c: nat)
    requires a < 9 && b < 9 && c < 9
  {
    s[a] == s[b] && s[b] == s[c] && s[c] != EMPTY
  }

  /** Line `k` of the engine's table holds three equal non-empty cells. */
  predicate ThreeOn(s: State, k: nat)
    requires k < 8
  {
    var l := Engine.Line(k);
    Three(s, l.0, l.1, l.2)
  }

  /** The loop of `getStatus` over row `i` and column `i`, from `i` on: the winner it records. */
  function LinesFrom(s: State, i: nat): (r: Option<char>)
    requires i <= 3
    ensures r.Some? ==> exists k :: 0 <= k < 6 && ThreeOn(s, k) && r.value == s[Engine.Line(k).0]
    ensures r.None? ==> forall k :: i <= k < 3 ==> !ThreeOn(s, k)
    ensures r.None? ==> forall k :: i + 3 <= k < 6 ==> !ThreeOn(s, k)
    decreases 3 - i
  {
    if i == 3 then None
    else if Three(s, 3 * i, 3 * i + 1, 3 * i + 2) then
      assert ThreeOn(s, i);
      Some(s[3 * i])
    else if Three(s, i, i + 3, i + 6) then
      assert ThreeOn(s, i + 3);
      Some(s[i])
    else LinesFrom(s, i + 1)
  }

  /**
   * `getStatus`, with the winner it stores in `self.winner`: rows and
   * columns in turn, then the two diagonals, then the search for an empty
   * cell.
   */
  function GetStatus(g: TicTacToe): (r: (Status, Option<char>))
    ensures r.0 == Won <==> exists k :: 0 <= k < 8 && ThreeOn(g.state, k)
    ensures r.0 == Won ==> r.1.Some? && exists k :: 0 <= k < 8 && ThreeOn(g.state, k) && r.1.value == g.state[Engine.Line(k).0]
    ensures r.0 == Drawn <==> (forall k :: 0 <= k < 8 ==> !ThreeOn(g.state, k)) && EMPTY !in g.state
    ensures r.0 == Playing <==> (forall k :: 0 <= k < 8 ==> !ThreeOn(g.state, k)) && EMPTY in g.state
  {
    var s := g.state;
    match LinesFrom(s, 0)
    case Some(c) => (Won, Some(c))
    case None =>
      if Three(s, 0, 4, 8) then
        assert ThreeOn(s, 6);
        (Won, Some(s[0]))
      else if Three(s, 2, 4, 6) then
        assert ThreeOn(s, 7);
        (Won, Some(s[2]))
      else
        assert !ThreeOn(s, 6) && !ThreeOn(s, 7);
        if EMPTY !in s then (Drawn, None)
        else (Playing, None)
  }

  /** The engine's board for a state: the same marks, `_` for an empty cell. */
  function AsBoard(s: State): (b: Engine.Board)
    requires forall i :: 0 <= i < 9 ==> s[i] in " XO"
  {
    seq(9, i requires 0 <= i < 9 => if s[i] == EMPTY then Engine.BLANK else s[i] as int)
  }

  /** A line is complete on the engine's board exactly when it is on the state. */
  lemma ThreeOnBoard(s: State, k: nat)
    requires forall i :: 0 <= i < 9 ==> s[i] in " XO"
    requires k < 8
    ensures Engine.Complete(AsBoard(s), k) <==> ThreeOn(s, k)
  {
    var l := Engine.Line(k);
    var b := AsBoard(s);
    assert s[l.0] in " XO" && s[l.1] in " XO" && s[l.2] in " XO";
  }

  /**
   * `getStatus` reaches the verdict of the rules on every state over
   * " XO", and the winner it records is the mark of a complete line.
   */
  lemma StatusIsVerdict(g: TicTacToe)
    requires forall i :: 0 <= i < 9 ==> g.state[i] in " XO"
    ensures GetStatus(g).0 == Won <==> Engine.Verdict(AsBoard(g.state)).Win?
    ensures GetStatus(g).0 == Drawn <==> Engine.Verdict(AsBoard(g.state)).Draw?
    ensures GetStatus(g).0 == Playing <==> Engine.Verdict(AsBoard(g.state)).Playing?
  {
    var b := AsBoard(g.state);
    forall k | 0 <= k < 8
      ensures Engine.Complete(b, k) <==> ThreeOn(g.state, k)
    {
      ThreeOnBoard(g.state, k);
    }
    assert Engine.BLANK in b <==> EMPTY in g.state by {
      if Engine.BLANK in b {
        var i :| 0 <= i < 9 && b[i] == Engine.BLANK;
        assert g.state[i] == EMPTY;
      }
      if EMPTY in g.state {
        var i :| 0 <= i < 9 && g.state[i] == EMPTY;
        assert b[i] == Engine.BLANK;
      }
    }
  }

  // ------------------------------------------------------------ encoding

  /** `bin(n)[2:].zfill(24)`. */
  function Padded(n: nat): (d: seq<bool>)
    ensures |d| >= 24
  {
    Digits(n, if Width(n) > 24 then Width(n) else 24)
  }

  /** The 24 digits of the encoding: occupancy, X marks, X to move, empty cells. */
  function Layout(g: TicTacToe): (d: seq<bool>)
    ensures |d| == 24
    ensures forall i :: 0 <= i < 9 ==> d[i] == (g.state[i] != EMPTY) && d[i + 9] == (g.state[i] == 'X')
    ensures d[18] == (g.next == 'X')
    ensures forall j :: 0 <= j < 5 ==> d[19 + j] == Digits(Count(g.state, EMPTY), 5)[j]
  {
    seq(9, i requires 0 <= i < 9 => g.state[i] != EMPTY) +
    seq(9, i requires 0 <= i < 9 => g.state[i] == 'X') +
    [g.next == 'X'] +
    Digits(Count(g.state, EMPTY), 5)
  }

  function EncodeSpec(g: TicTacToe): nat
  {
    FromDigits(Layout(g))
  }

  /** `encode`, which fills a list of 24 binary digits position by position. */
  method Encode(g: TicTacToe) returns (n: nat)
    ensures n == EncodeSpec(g)
  {
    var moves := Count(g.state, EMPTY);
    PaddedMoves(g.state);
    var encoding := Padded(moves);
    for i := 0 to 9
      invariant |encoding| == 24
      invariant forall j :: 0 <= j < i ==> encoding[j] == (g.state[j] != EMPTY)
    {
      encoding := encoding[i := g.state[i] != EMPTY];
    }
    for i := 9 to 18
      invariant |encoding| == 24
      invariant forall j :: 0 <= j < 9 ==> encoding[j] == (g.state[j] != EMPTY)
      invariant forall j :: 9 <= j < i ==> encoding[j] == (g.state[j - 9] == 'X')
    {
      encoding := encoding[i := g.state[i - 9] == 'X'];
    }
    encoding := encoding[18 := g.next == 'X'];
    ghost var digits := Digits(moves, 5);
    for i := 19 to 24
      invariant |encoding| == 24
      invariant forall j :: 0 <= j < 9 ==> encoding[j] == (g.state[j] != EMPTY)
      invariant forall j :: 9 <= j < 18 ==> encoding[j] == (g.state[j - 9] == 'X')
      invariant encoding[18] == (g.next == 'X')
      invariant forall j :: 19 <= j < i ==> encoding[j] == digits[j - 19]
    {
      MovesBit(moves, i);
      encoding := encoding[i := Bit(moves, 23 - i)];
    }
    IsLayout(g, encoding);
    n := FromDigits(encoding);
  }

  /** The count of empty cells is padded to exactly 24 digits. */
  lemma PaddedMoves(s: State)
    ensures |Padded(Count(s, EMPTY))| == 24
  {
    var moves := Count(s, EMPTY);
    assert Pow2(4) == 16;
    WidthBound(moves, 4);
  }

  /** Bit `23 - i` of the move count is digit `i - 19` of its five-digit form. */
  lemma MovesBit(moves: nat, i: nat)
    requires 19 <= i < 24
    ensures Bit(moves, 23 - i) == Digits(moves, 5)[i - 19]
  {
    DigitsBit(moves, 5, i - 19);
  }

  /** Digits that agree with the layout position by position are the layout. */
  lemma {:induction false} IsLayout(g: TicTacToe, d: seq<bool>)
    requires |d| == 24
    requires forall j :: 0 <= j < 9 ==> d[j] == (g.state[j] != EMPTY)
    requires forall j :: 9 <= j < 18 ==> d[j] == (g.state[j - 9] == 'X')
    requires d[18] == (g.next == 'X')
    requires forall j :: 19 <= j < 24 ==> d[j] == Digits(Count(g.state, EMPTY), 5)[j - 19]
    ensures d == Layout(g)
  {
    var e := Layout(g);
    forall j | 0 <= j < 24
      ensures d[j] == e[j]
    {
      if j < 9 {
      } else if j < 18 {
        assert e[(j - 9) + 9] == (g.state[j - 9] == 'X');
      } else if j >= 19 {
        assert e[19 + (j - 19)] == Digits(Count(g.state, EMPTY), 5)[j - 19];
      }
    }
  }

  /** `decode`: nine cells from the first 18 digits of `bin(n)[2:].zfill(24)`. */
  function DecodeSpec(n: nat): State
  {
    var e := Padded(n);
    seq(9, i requires 0 <= i < 9 => if !e[i] then EMPTY else if e[i + 9] then 'X' else 'O')
  }

  /** `decode`, which appends the nine cells one by one. */
  method Decode(n: nat) returns (decoding: string)
    ensures decoding == DecodeSpec(n)
  {
    var encoding := Padded(n);
    decoding := "";
    for i := 0 to 9
      invariant decoding == DecodeSpec(n)[..i]
    {
      if !encoding[i] {
        decoding := decoding + " ";
      } else {
        decoding := decoding + (if encoding[i + 9] then "X" else "O");
      }
    }
  }

  /** Every encoding fits in 24 bits, and its 24 binary digits are the layout. */
  lemma EncodeLayout(g: TicTacToe)
    ensures EncodeSpec(g) < Pow2(24)
    ensures Digits(EncodeSpec(g), 24) == Layout(g)
  {
    DigitsOfFromDigits(Layout(g));
  }

  /** `bin(encode())[2:].zfill(24)` gives back the 24 digits of the layout. */
  lemma PaddedEncoding(g: TicTacToe)
    ensures Padded(EncodeSpec(g)) == Layout(g)
  {
    EncodeLayout(g);
    WidthBound(EncodeSpec(g), 24);
  }

  /** `decode(encode())` gives back the state of every game over " XO". */
  lemma DecodeEncode(g: TicTacToe)
    requires forall i :: 0 <= i < 9 ==> g.state[i] in " XO"
    ensures DecodeSpec(EncodeSpec(g)) == g.state
  {
    PaddedEncoding(g);
    var e := Layout(g);
    forall i | 0 <= i < 9
      ensures DecodeSpec(EncodeSpec(g))[i] == g.state[i]
    {
      assert e[i] == (g.state[i] != EMPTY);
      assert e[i + 9] == (g.state[i] == 'X');
    }
  }
}
