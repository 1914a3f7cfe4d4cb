/**
 * The reference reversi rules of learning/python/reversi/test_reversi.py,
 * on the same 36-character board strings: `flips` decides whether a ray
 * captures, `validMove` tries the eight rays a square allows, `applyFlip`
 * turns a captured ray, `applyMove` plays on the global `gameboard`,
 * `countPossibleMoves` counts legal squares and `getEndgameStatus` scores
 * a finished game.
 *
 * Unlike the string board of main.py, `flips` tracks the column: a ray
 * stops as soon as one more step would not change the column by the same
 * amount as the first step, so rays do not wrap onto the next row.
 */
module ReversiText {
  import opened Text
  import Reversi

  type Cells = Reversi.Cells

  const EMPTY: char := Reversi.EMPTY

  /** `'X' if piece == 'O' else 'O'`. */
  function Opponent(piece: char): (other: char)
    ensures other != piece && other != EMPTY
  {
    if piece == 'O' then 'X' else 'O'
  }

  /**
   * The index where the `while` loop of `flips` stops: it steps on while
   * the column keeps changing by `diff`, the index stays in (0, 36) and
   * the cell holds an opponent's piece.
   */
  function WalkEnd(board: Cells, here: int, step: int, diff: int, piece: char): int
    requires step != 0
    decreases if step > 0 then 36 - here else here
  {
    if here % 6 - (here + step) % 6 == diff && 0 < here < 36 && board[here] == Opponent(piece)
    then WalkEnd(board, here + step, step, diff, piece)
    else here
  }

  /**
   * `flips(board, index, piece, step)`: the first cell is an opponent's,
   * and the walk over opponent pieces ends, with the column still changing
   * by the same amount, inside (0, 36) on the player's own piece. Python's
   * `%` on a negative index is the non-negative remainder, as in Dafny.
   */
  predicate FlipsSpec(board: Cells, index: int, piece: char, step: int)
    requires step != 0 && 0 <= index + step < 36
  {
    var here := index + step;
    var diff := index % 6 - here % 6;
    var e := WalkEnd(board, here, step, diff, piece);
    board[here] == Opponent(piece) &&
    e % 6 - (e + step) % 6 == diff && 0 < e < 36 && board[e] == piece
  }

  /** `flips`, with its loop. */
  method Flips(board: Cells, index: int, piece: char, step: int) returns (r: bool)
    requires step != 0 && 0 <= index + step < 36
    ensures r == FlipsSpec(board, index, piece, step)
  {
    var other := Opponent(piece);
    var here := index + step;
    if board[here] != other {
      return false;
    }
    var diff := index % 6 - here % 6;
    while here % 6 - (here + step) % 6 == diff && 0 < here < 36 && board[here] == other
      invariant WalkEnd(board, here, step, diff, piece) == WalkEnd(board, index + step, step, diff, piece)
      decreases if step > 0 then 36 - here else here
    {
      here := here + step;
    }
    r := here % 6 - (here + step) % 6 == diff && 0 < here < 36 && board[here] == piece;
  }

  /**
   * From `here` along `step`, a run of opponent pieces ends on the
   * player's own piece, all inside the string. The reference for what a
   * capture is, with no column test.
   */
  predicate Reaches(board: string, here: int, step: int, piece: char)
    requires step != 0
    decreases if step > 0 then |board| - here else here + 1
  {
    0 <= here < |board| &&
    (board[here] == piece || (board[here] == Opponent(piece) && Reaches(board, here + step, step, piece)))
  }

  lemma {:induction false} WalkReaches(board: Cells, here: int, step: int, diff: int, piece: char)
    requires step != 0
    requires var e := WalkEnd(board, here, step, diff, piece); 0 < e < 36 && board[e] == piece
    ensures Reaches(board, here, step, piece)
    decreases if step > 0 then 36 - here else here
  {
    if here % 6 - (here + step) % 6 == diff && 0 < here < 36 && board[here] == Opponent(piece) {
      WalkReaches(board, here + step, step, diff, piece);
    }
  }

  /** A ray `flips` accepts holds at least one opponent piece and then the player's own. */
  lemma FlipsReaches(board: Cells, index: int, piece: char, step: int)
    requires step != 0 && 0 <= index + step < 36
    requires FlipsSpec(board, index, piece, step)
    ensures board[index + step] == Opponent(piece)
    ensures Reaches(board, index + step + step, step, piece)
  {
    var here := index + step;
    WalkReaches(board, here, step, index % 6 - here % 6, piece);
  }

  /**
   * A capture that ends on the left edge is refused: in "XO-...", X
   * playing square 2 brackets the O on square 1 with its piece on square
   * 0, yet the walk stops on square 0, whose left neighbour is in another
   * column, and `here > 0` fails there too.
   */
  lemma EdgeCaptureRefused(board: Cells)
    requires board[0] == 'X' && board[1] == 'O'
    ensures Reaches(board, 1, -1, 'X')
    ensures !FlipsSpec(board, 2, 'X', -1)
  {
    assert WalkEnd(board, 0, -1, 1, 'X') == 0;
  }

  /** The steps `validMove` tries, in its order: left, up-left, up, up-right, right, down-right, down, down-left. */
  function Step(k: nat): (s: int)
    requires k < 8
    ensures s != 0
  {
    [-1, -7, -6, -5, 1, 7, 6, 5][k]
  }

  /** The guard `validMove` puts on step `k`: rows and columns far enough from the edge for a capture. */
  predicate Guard(x: int, k: nat)
    requires k < 8
  {
    var up := x >= 12;
    var down := x < 24;
    var left := x % 6 > 1;
    var right := x % 6 < 4;
    match k
    case 0 => left
    case 1 => up && left
    case 2 => up
    case 3 => up && right
    case 4 => right
    case 5 => down && right
    case 6 => down
    case _ => down && left
  }

  /** A guarded step from a square stays on the board. */
  lemma GuardInside(x: int, k: nat)
    requires 0 <= x < 36 && k < 8 && Guard(x, k)
    ensures 0 <= x + Step(k) < 36
  {
  }

  /** Ray `k` from `x` is allowed and captures. */
  predicate Captures(b: Cells, x: int, p: char, k: nat)
    requires 0 <= x < 36 && k < 8
  {
    Guard(x, k) && (GuardInside(x, k); FlipsSpec(b, x, p, Step(k)))
  }

  /** The `or` chain of `validMove`, from step `k` on. */
  predicate AnyCaptures(b: Cells, x: int, p: char, k: nat)
    requires 0 <= x < 36 && k <= 8
    decreases 8 - k
  {
    k < 8 && (Captures(b, x, p, k) || AnyCaptures(b, x, p, k + 1))
  }

  /** `validMove(b, x, p)`. */
  predicate ValidMove(b: Cells, x: int, p: char)
    ensures ValidMove(b, x, p) <==> 0 <= x < 36 && b[x] == EMPTY && exists k :: 0 <= k < 8 && Captures(b, x, p, k)
  {
    if x < 0 || x >= 36 then false
    else if b[x] != EMPTY then false
    else
      AnyCapturesSome(b, x, p, 0);
      AnyCaptures(b, x, p, 0)
  }

  lemma {:induction false} AnyCapturesSome(b: Cells, x: int, p: char, k: nat)
    requires 0 <= x < 36 && k <= 8
    ensures AnyCaptures(b, x, p, k) <==> exists j :: k <= j < 8 && Captures(b, x, p, j)
    decreases 8 - k
  {
    if k < 8 {
      AnyCapturesSome(b, x, p, k + 1);
    }
  }

  /**
   * A move is valid exactly on an empty square of the board from which
   * some allowed ray captures: a run of opponent pieces closed by the
   * player's own piece.
   */
  lemma ValidMoveCaptures(b: Cells, x: int, p: char)
    ensures ValidMove(b, x, p) <==> 0 <= x < 36 && b[x] == EMPTY && exists k :: 0 <= k < 8 && Captures(b, x, p, k)
    ensures ValidMove(b, x, p) ==> exists k :: (0 <= k < 8 && Guard(x, k) && 0 <= x + 2 * Step(k) < 36 &&
      b[x + Step(k)] == Opponent(p) && Reaches(b, x + 2 * Step(k), Step(k), p))
  {
    if 0 <= x < 36 {
      AnyCapturesSome(b, x, p, 0);
      if ValidMove(b, x, p) {
        var k :| 0 <= k < 8 && Captures(b, x, p, k);
        FlipsReaches(b, x, p, Step(k));
      }
    }
  }

  /** A capture in the sense of `Reaches` is a capturing ray of the string board of main.py. */
  lemma {:induction false} ReachesRay(b: Cells, i: int, step: int, p: char)
    requires step != 0 && p != EMPTY && Reaches(b, i, step, p)
    ensures Reversi.Ray(b, p, i, step, true)
    decreases if step > 0 then 36 - i else i + 1
  {
    if b[i] != p {
      ReachesRay(b, i + step, step, p);
    }
  }

  /** The rays of main.py, in its order, are the steps of `validMove` turned by one place. */
  lemma StepIsOffset(k: nat)
    requires k < 8
    ensures Step(k) == Reversi.Offset((k + 7) % 8)
  {
  }

  /**
   * Every square `validMove` accepts is one where main.py's `moves`
   * plays, for the same board and player.
   */
  lemma ValidMoveIsLegal(b: Cells, x: int, p: char)
    requires p != EMPTY && ValidMove(b, x, p)
    ensures 0 <= x < 36 && Reversi.Legal(Reversi.Board(b, p), x)
  {
    ValidMoveCaptures(b, x, p);
    var k :| 0 <= k < 8 && Guard(x, k) && 0 <= x + 2 * Step(k) < 36 &&
      b[x + Step(k)] == Opponent(p) && Reaches(b, x + 2 * Step(k), Step(k), p);
    ReachesRay(b, x + 2 * Step(k), Step(k), p);
    StepIsOffset(k);
    assert Reversi.Flag(Reversi.Board(b, p), x, (k + 7) % 8);
    Reversi.FlagLegal(Reversi.Board(b, p), x, (k + 7) % 8);
  }

  /**
   * The converse fails: on a board holding only "XO" in its first two
   * cells, main.py lets X play square 2 and `validMove` does not.
   */
  lemma EdgeCaptureDisagrees()
    ensures Reversi.Legal(Reversi.Board(EDGE, 'X'), 2) && !ValidMove(EDGE, 2, 'X')
  {
    EdgeLegal();
    EdgeNotValid();
  }

  /** The board of `EdgeCaptureDisagrees`. */
  const EDGE: Cells := "XO----------------------------------"

  lemma EdgeLegal()
    ensures Reversi.Legal(Reversi.Board(EDGE, 'X'), 2)
  {
    assert Reversi.Ray(EDGE, 'X', 1, -1, false);
    Reversi.FlagLegal(Reversi.Board(EDGE, 'X'), 2, 7);
  }

  lemma EdgeNotValid()
    ensures !ValidMove(EDGE, 2, 'X')
  {
    EdgeCaptureRefused(EDGE);
    forall k | 0 <= k < 8
      ensures !Captures(EDGE, 2, 'X', k)
    {
      if k != 0 && Guard(2, k) {
        GuardInside(2, k);
        assert EDGE[2 + Step(k)] == EMPTY;
      }
    }
    AnyCapturesSome(EDGE, 2, 'X', 0);
  }

  /**
   * The `while` loop of `applyFlip` from `here`: each opponent piece is
   * turned to `piece` until the first cell that is not an opponent's.
   */
  function FlipRun(board: string, here: int, step: int, piece: char): (r: string)
    requires step != 0 && Reaches(board, here, step, piece)
    ensures |r| == |board| && r[here] == piece
    ensures forall j :: 0 <= j < |board| && r[j] != board[j] ==> board[j] == Opponent(piece) && r[j] == piece
    ensures forall j :: 0 <= j < |board| && (if step > 0 then j < here else j > here) ==> r[j] == board[j]
    decreases if step > 0 then |board| - here else here + 1
  {
    if board[here] == Opponent(piece) then FlipRun(board, here + step, step, piece)[here := piece]
    else board
  }

  /** Changing a cell behind the run changes neither the run nor what it does. */
  lemma {:induction false} FlipRunFrame(board: string, here: int, step: int, piece: char, i: int, c: char)
    requires step != 0 && Reaches(board, here, step, piece)
    requires 0 <= i < |board| && (if step > 0 then i < here else i > here)
    ensures Reaches(board[i := c], here, step, piece)
    ensures FlipRun(board[i := c], here, step, piece) == FlipRun(board, here, step, piece)[i := c]
    decreases if step > 0 then |board| - here else here + 1
  {
    if board[here] == Opponent(piece) {
      FlipRunFrame(board, here + step, step, piece, i, c);
    }
  }

  /** `applyFlip(board, index, piece, step)`, for a ray that captures. */
  method ApplyFlip(board: string, index: int, piece: char, step: int) returns (r: string)
    requires step != 0 && Reaches(board, index + step, step, piece)
    ensures r == FlipRun(board, index + step, step, piece)
  {
    var other := Opponent(piece);
    var here := index + step;
    r := board;
    while r[here] == other
      invariant Reaches(r, here, step, piece)
      invariant FlipRun(r, here, step, piece) == FlipRun(board, index + step, step, piece)
      decreases if step > 0 then |r| - here else here + 1
    {
      FlipRunFrame(r, here + step, step, piece, here, piece);
      Placed(r, here, piece);
      r := r[..here] + [piece] + r[here + 1..];
      here := here + step;
    }
  }

  /** Steps `k` and later of `applyMove`, each flipped if allowed and capturing on the board as it is by then. */
  function FlipFrom(b: Cells, x: int, p: char, k: nat): (r: Cells)
    requires 0 <= x < 36 && k <= 8
    ensures r[x] == b[x]
    ensures forall j :: 0 <= j < 36 && r[j] != b[j] ==> b[j] == Opponent(p) && r[j] == p
    decreases 8 - k
  {
    if k == 8 then b
    else if Captures(b, x, p, k) then
      FlipsReaches(b, x, p, Step(k));
      FlipFrom(FlipRun(b, x + Step(k), Step(k), p), x, p, k + 1)
    else FlipFrom(b, x, p, k + 1)
  }

  /** The board `applyMove(x, p)` leaves when the move is valid. */
  function Played(b: Cells, x: int, p: char): Cells
    requires 0 <= x < 36
  {
    FlipFrom(b, x, p, 0)[x := p]
  }

  /** Once some ray from step `k` on captures, at least one opponent piece is turned. */
  lemma {:induction false} FlipFromTurns(b: Cells, x: int, p: char, k: nat)
    requires 0 <= x < 36 && k <= 8
    requires exists j :: k <= j < 8 && Captures(b, x, p, j)
    ensures exists c :: 0 <= c < 36 && c != x && b[c] == Opponent(p) && FlipFrom(b, x, p, k)[c] == p
    decreases 8 - k
  {
    if Captures(b, x, p, k) {
      FlipsReaches(b, x, p, Step(k));
      var c := x + Step(k);
      var flipped := FlipRun(b, c, Step(k), p);
      assert flipped[c] == p;
    } else {
      FlipFromTurns(b, x, p, k + 1);
    }
  }

  /**
   * A valid move puts the piece on `x`, turns at least one opponent
   * piece, and changes no other cell than opponent pieces into the
   * player's.
   */
  lemma PlayedEffect(b: Cells, x: int, p: char)
    requires ValidMove(b, x, p)
    ensures Played(b, x, p)[x] == p
    ensures forall j :: 0 <= j < 36 && j != x && Played(b, x, p)[j] != b[j] ==> b[j] == Opponent(p) && Played(b, x, p)[j] == p
    ensures exists c :: 0 <= c < 36 && c != x && b[c] == Opponent(p) && Played(b, x, p)[c] == p
  {
    ValidMoveCaptures(b, x, p);
    FlipFromTurns(b, x, p, 0);
    var c :| 0 <= c < 36 && c != x && b[c] == Opponent(p) && FlipFrom(b, x, p, 0)[c] == p;
    assert Played(b, x, p)[c] == p;
  }

  /** The module-level state of the script: the global `gameboard`. */
  class Game {
    var gameboard: Cells

    /** `gameboard = "--------------XO----OX--------------"`. */
    constructor()
      ensures gameboard == Reversi.INITIAL
    {
      gameboard := Reversi.INITIAL;
    }

    /**
     * `applyMove(x, p)`: `false` (Python's `False`) and no change for an
     * invalid move; otherwise `true` (Python's `None`) and the played board.
     */
    method ApplyMove(x: int, p: char) returns (applied: bool)
      modifies this
      ensures applied == ValidMove(old(gameboard), x, p)
      ensures !applied ==> gameboard == old(gameboard)
      ensures applied ==> 0 <= x < 36 && gameboard == Played(old(gameboard), x, p)
    {
      var b := gameboard;
      if !ValidMove(b, x, p) {
        return false;
      }
      b := FlipAll(b, x, p);
      Placed(b, x, p);
      b := b[..x] + [p] + b[x + 1..];
      gameboard := b;
      applied := true;
    }
  }

  /** `b[:x] + p + b[x+1:]` puts `p` at `x` and changes nothing else. */
  lemma Placed(b: string, x: int, p: char)
    requires 0 <= x < |b|
    ensures b[..x] + [p] + b[x + 1..] == b[x := p]
  {
    var t := b[..x] + [p] + b[x + 1..];
    forall i | 0 <= i < |b|
      ensures t[i] == b[x := p][i]
    {
    }
  }

  /** The eight guarded `if ... flips(...)` / `applyFlip(...)` statements of `applyMove`. */
  method FlipAll(board: Cells, x: int, p: char) returns (b: Cells)
    requires 0 <= x < 36
    ensures b == FlipFrom(board, x, p, 0)
  {
    b := board;
    for k := 0 to 8
      invariant FlipFrom(b, x, p, k) == FlipFrom(board, x, p, 0)
    {
      var step := Step(k);
      if Guard(x, k) {
        GuardInside(x, k);
        var f := Flips(b, x, p, step);
        if f {
          FlipsReaches(b, x, p, step);
          b := ApplyFlip(b, x, p, step);
        }
      }
    }
  }

  /** The number of squares below `n` where `piece` can move. */
  function ValidBelow(board: Cells, piece: char, n: nat): (c: nat)
    ensures c <= n
  {
    if n == 0 then 0 else ValidBelow(board, piece, n - 1) + (if ValidMove(board, n - 1, piece) then 1 else 0)
  }

  /** No square below `n` is valid exactly when the count is zero. */
  lemma {:induction false} ValidBelowZero(board: Cells, piece: char, n: nat)
    ensures ValidBelow(board, piece, n) == 0 <==> forall i :: 0 <= i < n ==> !ValidMove(board, i, piece)
  {
    if n > 0 {
      ValidBelowZero(board, piece, n - 1);
    }
  }

  /** `countPossibleMoves(board, piece)`: a boolean adds as 0 or 1. */
  method CountPossibleMoves(board: Cells, piece: char) returns (movesLeft: nat)
    ensures movesLeft == ValidBelow(board, piece, 36)
    ensures movesLeft == 0 <==> forall i :: 0 <= i < 36 ==> !ValidMove(board, i, piece)
  {
    movesLeft := 0;
    for i := 0 to 36
      invariant movesLeft == ValidBelow(board, piece, i)
    {
      movesLeft := movesLeft + if ValidMove(board, i, piece) then 1 else 0;
    }
    ValidBelowZero(board, piece, 36);
  }

  /** `getEndgameStatus(board)`: X's pieces minus O's; positive when X wins. */
  method GetEndgameStatus(board: Cells) returns (score: int)
    ensures score == Count(board, 'X') - Count(board, 'O')
    ensures -36 <= score <= 36
  {
    var countX := 0;
    var countO := 0;
    for i := 0 to 36
      invariant countX == Count(board[..i], 'X') && countO == Count(board[..i], 'O')
    {
      assert board[..i + 1] == board[..i] + [board[i]];
      CountAppend(board[..i], [board[i]], 'X');
      CountAppend(board[..i], [board[i]], 'O');
      countX := countX + if board[i] == 'X' then 1 else 0;
      countO := countO + if board[i] == 'O' then 1 else 0;
    }
    assert board[..36] == board;
    score := countX - countO;
  }
}
