/**
 * The string reversi board of learning/python/reversi/main.py: a 6x6
 * board as a 36-character string of '-', 'X' and 'O', row by row, and the
 * player to move. `check_directions` packs, for the eight rays around a
 * square, whether the ray captures into an 8-bit number (first ray in the
 * most significant bit); `move` paints the captured rays; `moves` lists
 * the boards reachable in one move; `count` counts the leaves of the game
 * tree below a board.
 *
 * Rays follow the string index only: a ray that leaves one side of the
 * board continues on the next row (there is no column test), and stops
 * only at either end of the string.
 */
module Reversi {
  import opened Text
  import opened Binary

  /** A board: 36 cells, row by row. */
  type Cells = s: string | |s| == 36 witness "------------------------------------"

  const EMPTY: char := '-'

  /** The default board: the four centre squares taken, X to move. */
  const INITIAL: Cells := "--------------XO----OX--------------"

  datatype Board = Board(board: Cells, next: char)

  function Initial(): Board
  {
    Board(INITIAL, 'X')
  }

  /** The player after `c`: `"X" if c == "O" else "O"`. */
  function Toggle(c: char): (r: char)
    ensures r != c && (r == 'X' || r == 'O')
  {
    if c == 'O' then 'X' else 'O'
  }

  /** The rays in the order the source visits them: top left, top, top right, right, bottom right, bottom, bottom left, left. */
  function Offset(k: nat): (o: int)
    requires k < 8
    ensures o != 0 && -7 <= o <= 7
  {
    [-7, -6, -5, 1, 7, 6, 5, -1][k]
  }

  /**
   * The inner loop of `check_directions` from index `i`: empty cells stop
   * the ray, cells that are not the mover's are passed over (`to_flip`),
   * and the first of the mover's own cells captures if something was
   * passed over. The loop `range(x + offset, -1 if offset < 0 else 36,
   * offset)` started inside the board visits exactly the indices in
   * [0, 36).
   */
  predicate Ray(b: Cells, next: char, i: int, offset: int, toFlip: bool)
    requires offset != 0
    decreases if offset < 0 then i + 1 else 36 - i
  {
    if !(0 <= i < 36) || b[i] == EMPTY then false
    else if b[i] != next then Ray(b, next, i + offset, offset, true)
    else toFlip
  }

  /** Whether ray `k` from square `x` captures. */
  predicate Flag(g: Board, x: int, k: nat)
    requires k < 8
  {
    Ray(g.board, g.next, x + Offset(k), Offset(k), false)
  }

  /** The eight flags, first ray first. */
  function Flags(g: Board, x: int): (f: seq<bool>)
    ensures |f| == 8 && forall k :: 0 <= k < 8 ==> f[k] == Flag(g, x, k)
  {
    seq(8, k requires 0 <= k < 8 => Flag(g, x, k))
  }

  /** The value `check_directions(x)` returns: the flags read as a binary number. */
  function Directions(g: Board, x: int): nat
  {
    FromDigits(Flags(g, x))
  }

  /** A ray captures only across at least one occupied cell that is not the mover's. */
  lemma RayNeedsOpponent(b: Cells, next: char, i: int, offset: int)
    requires offset != 0
    requires Ray(b, next, i, offset, false)
    ensures 0 <= i < 36 && b[i] != EMPTY && b[i] != next
  {
  }

  /** With `next` the empty mark, every empty-or-not test stops the ray first: nothing is captured. */
  lemma {:induction false} RayEmptyMover(b: Cells, i: int, offset: int, toFlip: bool)
    requires offset != 0
    ensures !Ray(b, EMPTY, i, offset, toFlip)
    decreases if offset < 0 then i + 1 else 36 - i
  {
    if 0 <= i < 36 && b[i] != EMPTY {
      RayEmptyMover(b, i + offset, offset, true);
    }
  }

  /** The result of `check_directions` fits in eight bits, and bit `7 - k` is the flag of ray `k`. */
  lemma DirectionsBits(g: Board, x: int)
    ensures Directions(g, x) < 256
    ensures forall k :: 0 <= k < 8 ==> (Bit(Directions(g, x), 7 - k) <==> Flag(g, x, k))
  {
    var f := Flags(g, x);
    DigitsOfFromDigits(f);
    assert Pow2(8) == 256;
    forall k | 0 <= k < 8
      ensures Bit(Directions(g, x), 7 - k) <==> Flag(g, x, k)
    {
      DigitsBit(FromDigits(f), 8, k);
    }
  }

  lemma {:induction false} NoBitOfZero(j: nat)
    ensures !Bit(0, j)
  {
    if j > 0 {
      NoBitOfZero(j - 1);
    }
  }

  /** `check_directions(x)` is non-zero exactly when some ray captures. */
  lemma DirectionsNonZero(g: Board, x: int)
    ensures Directions(g, x) != 0 <==> exists k :: 0 <= k < 8 && Flag(g, x, k)
  {
    DirectionsBits(g, x);
    if Directions(g, x) == 0 {
      forall k | 0 <= k < 8
        ensures !Flag(g, x, k)
      {
        NoBitOfZero(7 - k);
      }
    } else {
      var f := Flags(g, x);
      if forall k :: 0 <= k < 8 ==> !f[k] {
        AllFalseIsZero(f);
      }
    }
  }

  lemma {:induction false} AllFalseIsZero(d: seq<bool>)
    requires forall k :: 0 <= k < |d| ==> !d[k]
    ensures FromDigits(d) == 0
  {
    if d != [] {
      AllFalseIsZero(d[..|d| - 1]);
    }
  }

  /**
   * `check_directions(x)`: each ray's flag is shifted in from the right;
   * `directions |= 1` is applied to an even number, where it adds one.
   */
  method CheckDirections(g: Board, x: int) returns (directions: nat)
    requires 0 <= x < 36
    ensures directions == Directions(g, x)
  {
    ghost var f := Flags(g, x);
    directions := 0;
    for k := 0 to 8
      invariant directions == 2 * FromDigits(f[..k])
    {
      var offset := Offset(k);
      var toFlip := false;
      var i := x + offset;
      ghost var before := directions;
      while 0 <= i < 36
        invariant Ray(g.board, g.next, i, offset, toFlip) == f[k]
        invariant directions == before
        decreases if offset < 0 then i + 1 else 36 - i
      {
        if g.board[i] == EMPTY {
          break;
        } else if g.board[i] != g.next {
          toFlip := true;
        } else if toFlip {
          directions := directions + 1;
          break;
        } else {
          break;
        }
        i := i + offset;
      }
      assert directions == before + (if f[k] then 1 else 0);
      assert f[..k + 1][..k] == f[..k];
      directions := 2 * directions;
    }
    assert f[..8] == f;
    directions := directions / 2;
  }

  /**
   * The inner loop of `move` from index `i`: the mover's own cell stops
   * the ray, occupied cells become the mover's in `nb`, and empty cells
   * are passed over. Cells are read from the original board `b`.
   */
  function Paint(b: Cells, nb: Cells, next: char, i: int, offset: int): (r: Cells)
    requires offset != 0
    ensures forall j :: 0 <= j < 36 && r[j] != nb[j] ==> r[j] == next && b[j] != EMPTY
    ensures forall j :: 0 <= j < 36 && (if offset > 0 then j < i else j > i) ==> r[j] == nb[j]
    decreases if offset < 0 then i + 1 else 36 - i
  {
    if !(0 <= i < 36) || b[i] == next then nb
    else Paint(b, if b[i] != EMPTY then nb[i := next] else nb, next, i + offset, offset)
  }

  /** Rays `k` and later, each painted when its bit is set in `d`. */
  function PaintFrom(b: Cells, nb: Cells, next: char, x: int, d: nat, k: nat): (r: Cells)
    requires k <= 8
    ensures forall j :: 0 <= j < 36 && r[j] != nb[j] ==> r[j] == next && b[j] != EMPTY
    ensures 0 <= x < 36 ==> r[x] == nb[x]
    decreases 8 - k
  {
    if k == 8 then nb
    else PaintFrom(b, if Bit(d, 7 - k) then Paint(b, nb, next, x + Offset(k), Offset(k)) else nb, next, x, d, k + 1)
  }

  /** The board `move(x, directions)` returns. */
  function Successor(g: Board, x: int, d: nat): Board
    requires 0 <= x < 36
  {
    Board(PaintFrom(g.board, g.board[x := g.next], g.next, x, d, 0), Toggle(g.next))
  }

  /**
   * A move puts the mover's piece on `x`, turns only occupied cells into
   * the mover's, and passes the turn.
   */
  lemma MoveEffect(g: Board, x: int, d: nat)
    requires 0 <= x < 36
    ensures Successor(g, x, d).board[x] == g.next
    ensures forall j :: 0 <= j < 36 && j != x && Successor(g, x, d).board[j] != g.board[j] ==>
      g.board[j] != EMPTY && Successor(g, x, d).board[j] == g.next
    ensures Successor(g, x, d).next == Toggle(g.next)
  {
  }

  /** Playing on an empty square fills exactly one empty cell. */
  lemma MoveFillsOne(g: Board, x: int, d: nat)
    requires 0 <= x < 36 && g.board[x] == EMPTY && g.next != EMPTY
    ensures Count(Successor(g, x, d).board, EMPTY) == Count(g.board, EMPTY) - 1
  {
    var placed := g.board[x := g.next];
    CountUpdate(g.board, x, g.next, EMPTY);
    MoveEffect(g, x, d);
    SameEmpties(Successor(g, x, d).board, placed);
  }

  lemma {:induction false} SameEmpties(s: string, t: string)
    requires |s| == |t|
    requires forall j :: 0 <= j < |s| ==> (s[j] == EMPTY <==> t[j] == EMPTY)
    ensures Count(s, EMPTY) == Count(t, EMPTY)
  {
    if s != [] {
      SameEmpties(s[..|s| - 1], t[..|t| - 1]);
      assert s == s[..|s| - 1] + [s[|s| - 1]];
      assert t == t[..|t| - 1] + [t[|t| - 1]];
      CountAppend(s[..|s| - 1], [s[|s| - 1]], EMPTY);
      CountAppend(t[..|t| - 1], [t[|t| - 1]], EMPTY);
    }
  }

  /**
   * `move(x, directions)`: the new board starts as a copy with `x` set,
   * and each ray whose bit reaches the top of the shifted `directions` is
   * painted. A zero `directions` still places the piece and passes the
   * turn: the statement `self` under `if directions == 0` has no effect.
   */
  method Move(g: Board, x: int, directions: nat) returns (r: Board)
    requires 0 <= x < 36
    ensures r == Successor(g, x, directions)
  {
    var nb: Cells := g.board[x := g.next];
    ghost var target := PaintFrom(g.board, nb, g.next, x, directions, 0);
    var shifted := directions;
    for k := 0 to 8
      invariant shifted == directions * Pow2(k)
      invariant PaintFrom(g.board, nb, g.next, x, directions, k) == target
    {
      ShiftBit(directions, k, shifted);
      if Bit(shifted, 7) {
        nb := PaintRay(g.board, nb, g.next, x + Offset(k), Offset(k));
      }
      shifted := shifted * 2;
    }
    r := Board(nb, Toggle(g.next));
  }

  /** The inner loop of `move` for one ray. */
  method PaintRay(b: Cells, start: Cells, next: char, from: int, offset: int) returns (nb: Cells)
    requires offset != 0
    ensures nb == Paint(b, start, next, from, offset)
  {
    nb := start;
    var i := from;
    while 0 <= i < 36
      invariant Paint(b, nb, next, i, offset) == Paint(b, start, next, from, offset)
      decreases if offset < 0 then i + 1 else 36 - i
    {
      if b[i] == next {
        break;
      } else if b[i] != EMPTY {
        nb := nb[i := next];
      }
      i := i + offset;
    }
  }

  /** At round `k` of `move`, bit 7 of the shifted flags is flag `k`, and the next shift doubles them. */
  lemma ShiftBit(d: nat, k: nat, shifted: nat)
    requires k < 8 && shifted == d * Pow2(k)
    ensures Bit(shifted, 7) == Bit(d, 7 - k)
    ensures shifted * 2 == d * Pow2(k + 1)
  {
    BitShifted(d, k, 7 - k);
    ShiftStep(d, k);
  }

  lemma ShiftStep(d: nat, k: nat)
    ensures d * Pow2(k + 1) == 2 * (d * Pow2(k))
  {
    assert Pow2(k + 1) == 2 * Pow2(k);
  }

  /** Shifting left by `k` moves bit `j` to bit `j + k`. */
  lemma {:induction false} BitShifted(d: nat, k: nat, j: nat)
    ensures Bit(d * Pow2(k), j + k) == Bit(d, j)
  {
    if k > 0 {
      BitShifted(d, k - 1, j);
      ShiftStep(d, k - 1);
      assert (d * Pow2(k)) / 2 == d * Pow2(k - 1);
    }
  }

  /** Whether `moves` keeps square `i`: empty, and some ray captures. */
  predicate Legal(g: Board, i: int)
    requires 0 <= i < 36
    ensures Legal(g, i) <==> g.board[i] == EMPTY && exists k :: 0 <= k < 8 && Flag(g, i, k)
  {
    DirectionsNonZero(g, i);
    g.board[i] == EMPTY && Directions(g, i) != 0
  }

  /** An empty square with one capturing ray is legal. */
  lemma FlagLegal(g: Board, i: int, k: nat)
    requires 0 <= i < 36 && k < 8 && g.board[i] == EMPTY && Flag(g, i, k)
    ensures Legal(g, i)
  {
    DirectionsNonZero(g, i);
  }

  /** The squares marked in the board-format comment are legal for X on the default board. */
  lemma InitialLegal(g: Board)
    requires g == Initial()
    ensures Legal(g, 9) && Legal(g, 16) && Legal(g, 19) && Legal(g, 26)
  {
    OpeningCells(g);
    OpeningLegal(g);
  }

  /** On the default board no other empty square is legal for X. */
  lemma InitialOnly(i: int)
    requires 0 <= i < 36 && i != 9 && i != 16 && i != 19 && i != 26
    ensures !Legal(Initial(), i)
  {
    DirectionsNonZero(Initial(), i);
    forall k | 0 <= k < 8
      ensures !Flag(Initial(), i, k)
    {
      if Flag(Initial(), i, k) {
        InitialRay(i + Offset(k), k);
      }
    }
  }

  /** On the default board X captures along four rays only: left and bottom from 15, top and right from 20. */
  lemma InitialRay(j: int, k: nat)
    requires k < 8 && Ray(INITIAL, 'X', j, Offset(k), false)
    ensures (j == 15 && (k == 5 || k == 7)) || (j == 20 && (k == 1 || k == 3))
  {
    RayNeedsOpponent(INITIAL, 'X', j, Offset(k));
    InitialOpponents(j);
  }

  /** The opponent's cells of the default board. */
  lemma InitialOpponents(j: int)
    requires 0 <= j < 36 && INITIAL[j] == 'O'
    ensures j == 15 || j == 20
  {
  }

  /** The cells of the default board around the four opening moves. */
  lemma OpeningCells(g: Board)
    requires g == Initial()
    ensures g.next == 'X' && g.board[14] == 'X' && g.board[15] == 'O' && g.board[20] == 'O' && g.board[21] == 'X'
    ensures g.board[9] == EMPTY && g.board[16] == EMPTY && g.board[19] == EMPTY && g.board[26] == EMPTY
  {
  }

  /** With X to move and the opening's centre, squares 9, 16, 19 and 26 are legal when empty. */
  lemma OpeningLegal(g: Board)
    requires g.next == 'X' && g.board[14] == 'X' && g.board[15] == 'O' && g.board[20] == 'O' && g.board[21] == 'X'
    requires g.board[9] == EMPTY && g.board[16] == EMPTY && g.board[19] == EMPTY && g.board[26] == EMPTY
    ensures Legal(g, 9) && Legal(g, 16) && Legal(g, 19) && Legal(g, 26)
  {
    CaptureLegal(g, 9, 5);
    CaptureLegal(g, 16, 7);
    CaptureLegal(g, 19, 3);
    CaptureLegal(g, 26, 1);
  }

  /** An empty square whose ray `k` passes one opposing cell and then reaches the mover's own is legal. */
  lemma CaptureLegal(g: Board, i: int, k: nat)
    requires 0 <= i < 36 && k < 8 && g.board[i] == EMPTY && g.next != EMPTY
    requires 0 <= i + Offset(k) < 36 && 0 <= i + 2 * Offset(k) < 36
    requires g.board[i + Offset(k)] != EMPTY && g.board[i + Offset(k)] != g.next
    requires g.board[i + 2 * Offset(k)] == g.next
    ensures Legal(g, i)
  {
    Capture(g, i + Offset(k), Offset(k));
    FlagLegal(g, i, k);
  }

  /** An opposing cell followed by one of the mover's own captures. */
  lemma Capture(g: Board, i: int, offset: int)
    requires offset != 0 && 0 <= i < 36 && 0 <= i + offset < 36
    requires g.next != EMPTY && g.board[i] != EMPTY && g.board[i] != g.next && g.board[i + offset] == g.next
    ensures Ray(g.board, g.next, i, offset, false)
  {
    assert Ray(g.board, g.next, i + offset, offset, true);
  }

  /** The successors `moves` lists for the squares below `n`, in square order. */
  function MovesBelow(g: Board, n: nat): (ms: seq<Board>)
    requires n <= 36
    ensures |ms| <= n
  {
    if n == 0 then []
    else MovesBelow(g, n - 1) + (if Legal(g, n - 1) then [Successor(g, n - 1, Directions(g, n - 1))] else [])
  }

  /** `moves()`. */
  method Moves(g: Board) returns (ms: seq<Board>)
    ensures ms == MovesBelow(g, 36)
  {
    ms := [];
    for i := 0 to 36
      invariant ms == MovesBelow(g, i)
    {
      var valid := CheckDirections(g, i);
      if g.board[i] == EMPTY && valid != 0 {
        var m := Move(g, i, valid);
        ms := ms + [m];
      }
    }
  }

  /** Every listed successor has one empty cell fewer. */
  lemma {:induction false} MovesFewerEmpty(g: Board, n: nat)
    requires n <= 36
    ensures forall m :: m in MovesBelow(g, n) ==> Count(m.board, EMPTY) == Count(g.board, EMPTY) - 1
  {
    if n > 0 {
      MovesFewerEmpty(g, n - 1);
      var i := n - 1;
      var tail := if Legal(g, i) then [Successor(g, i, Directions(g, i))] else [];
      if Legal(g, i) {
        LegalFillsOne(g, i);
      }
      AllFewer(MovesBelow(g, i), tail, Count(g.board, EMPTY) - 1);
    }
  }

  /** Two lists of boards with `c` empty cells each concatenate to one. */
  lemma AllFewer(ms: seq<Board>, tail: seq<Board>, c: int)
    requires forall m :: m in ms ==> Count(m.board, EMPTY) == c
    requires forall m :: m in tail ==> Count(m.board, EMPTY) == c
    ensures forall m :: m in ms + tail ==> Count(m.board, EMPTY) == c
  {
  }

  lemma LegalFillsOne(g: Board, i: int)
    requires 0 <= i < 36 && Legal(g, i)
    ensures Count(Successor(g, i, Directions(g, i)).board, EMPTY) == Count(g.board, EMPTY) - 1
  {
    DirectionsNonZero(g, i);
    var k :| 0 <= k < 8 && Flag(g, i, k);
    if g.next == EMPTY {
      RayEmptyMover(g.board, i + Offset(k), Offset(k), false);
    }
    MoveFillsOne(g, i, Directions(g, i));
  }

  /** Every listed successor is the move on a legal square. */
  lemma {:induction false} MovesSound(g: Board, n: nat)
    requires n <= 36
    ensures forall m :: m in MovesBelow(g, n) ==> exists i :: 0 <= i < n && Legal(g, i) && m == Successor(g, i, Directions(g, i))
  {
    if n > 0 {
      MovesSound(g, n - 1);
    }
  }

  /** Every legal square below `n` has its successor listed. */
  lemma {:induction false} MovesComplete(g: Board, n: nat, i: int)
    requires 0 <= i < n <= 36 && Legal(g, i)
    ensures Successor(g, i, Directions(g, i)) in MovesBelow(g, n)
  {
    if i < n - 1 {
      MovesComplete(g, n - 1, i);
    }
  }

  /**
   * `count(board)`: 1 for a board with no move, otherwise the sum of the
   * counts of its successors. The turn is not passed when the mover has
   * no move.
   */
  function Leaves(g: Board): (n: nat)
    ensures n >= 1
    decreases Count(g.board, EMPTY), 1
  {
    var ms := MovesBelow(g, 36);
    MovesFewerEmpty(g, 36);
    if |ms| == 0 then 1 else SumLeaves(ms, 0, Count(g.board, EMPTY))
  }

  /** `sum(count(move) for move in ms[k:])`, every board having fewer than `bound` empty cells. */
  function SumLeaves(ms: seq<Board>, k: nat, bound: nat): (n: nat)
    requires k <= |ms|
    requires forall m :: m in ms ==> Count(m.board, EMPTY) < bound
    ensures n >= |ms| - k
    decreases bound, 0, |ms| - k
  {
    if k == |ms| then 0 else Leaves(ms[k]) + SumLeaves(ms, k + 1, bound)
  }

  /** A board counts at least one leaf per move it has, and exactly one when it has none. */
  lemma LeavesBound(g: Board)
    ensures Leaves(g) >= |MovesBelow(g, 36)|
    ensures |MovesBelow(g, 36)| == 0 ==> Leaves(g) == 1
  {
  }

  /** `__str__`: the six rows separated by newlines. */
  function Rows(b: Cells): (s: string)
    ensures |s| == 41
    ensures forall j :: 0 <= j < 41 ==> s[j] == (if j % 7 == 6 then '\n' else b[6 * (j / 7) + j % 7])
  {
    b[..6] + "\n" + b[6..12] + "\n" + b[12..18] + "\n" + b[18..24] + "\n" + b[24..30] + "\n" + b[30..]
  }

  function Show(g: Board): (s: string)
    ensures |s| == 41
    ensures forall i :: 0 <= i < 36 ==> s[7 * (i / 6) + i % 6] == g.board[i]
    ensures forall r :: 0 <= r < 5 ==> s[7 * r + 6] == '\n'
  {
    var s := Rows(g.board);
    assert forall i :: 0 <= i < 36 ==> s[7 * (i / 6) + i % 6] == g.board[i] by {
      forall i | 0 <= i < 36
        ensures s[7 * (i / 6) + i % 6] == g.board[i]
      {
        ShownAt(i);
      }
    }
    assert forall r :: 0 <= r < 5 ==> s[7 * r + 6] == '\n' by {
      forall r | 0 <= r < 5
        ensures s[7 * r + 6] == '\n'
      {
        NewlineAt(r);
      }
    }
    s
  }

  /** Row `r` ends with the newline at position `7 * r + 6`. */
  lemma NewlineAt(r: int)
    requires 0 <= r < 5
    ensures (7 * r + 6) % 7 == 6
  {
  }

  /** Cell `i` is printed in row `i / 6`, column `i % 6`, each row followed by its newline. */
  lemma ShownAt(i: int)
    requires 0 <= i < 36
    ensures (7 * (i / 6) + i % 6) / 7 == i / 6 && (7 * (i / 6) + i % 6) % 7 == i % 6
    ensures 6 * (i / 6) + i % 6 == i
  {
  }
}
