/**
 * The bit-array reversi board of learning/python/reversi/test.py: two bit
 * arrays, `board` (set for X) and `mask` (set for an occupied square), and
 * the player to move as a bit (set for X). Squares are indexed as in the
 * string board, and the rays are those of main.py in the same order.
 *
 * As written, the tests of `check_directions` and `move` are inverted
 * with respect to main.py: a ray is flagged when it passes over the
 * mover's own pieces and ends on an opponent's piece, and `move` rewrites
 * the mover's own pieces with their own colour. The successor keeps the
 * old mask. The lemmas below state these facts.
 */
module ReversiBits {
  import opened Wrappers
  import opened Text
  import Reversi

  datatype Bits = Bits(board: seq<bool>, mask: seq<bool>, next: bool)

  /** The board argument of the constructor: a pair of bit arrays, or a board string. */
  datatype BoardArg = Bitarrays(bits: seq<bool>, occupied: seq<bool>) | Str(s: string)

  /** The `next` argument: a bool, a string, or a value of another type. */
  datatype NextArg = Flag(f: bool) | Name(n: string) | OtherNext

  /** The characters `bitarray` accepts once '-', 'X' and 'O' are replaced. */
  predicate Accepted(c: char)
  {
    c == '-' || c == 'X' || c == 'O' || c == '0' || c == '1'
  }

  /** `board.replace("-", "0").replace("X", "1").replace("O", "0")`, as bits. */
  function BoardBits(s: string): (b: seq<bool>)
    ensures |b| == |s| && forall i :: 0 <= i < |s| ==> (b[i] <==> s[i] == 'X' || s[i] == '1')
  {
    seq(|s|, i requires 0 <= i < |s| => s[i] == 'X' || s[i] == '1')
  }

  /** `board.replace("-", "0").replace("X", "1").replace("O", "1")`, as bits. */
  function MaskBits(s: string): (m: seq<bool>)
    ensures |m| == |s| && forall i :: 0 <= i < |s| ==> (m[i] <==> s[i] == 'X' || s[i] == 'O' || s[i] == '1')
  {
    seq(|s|, i requires 0 <= i < |s| => s[i] == 'X' || s[i] == 'O' || s[i] == '1')
  }

  /** `1 if next == "X" else 0`, or the bool itself. */
  function NextBit(next: NextArg): bool
    requires !next.OtherNext?
  {
    match next
    case Flag(f) => f
    case Name(n) => n == "X"
  }

  /**
   * `Board(board, next)`: a board string is converted first (a character
   * `bitarray` rejects raises ValueError), then `next` is checked
   * (TypeError unless it is a bool or a string).
   */
  function Make(board: BoardArg, next: NextArg): (r: Result<Bits, string>)
    ensures board.Bitarrays? ==> (r.Ok? <==> !next.OtherNext?)
    ensures board.Str? ==> (r.Ok? <==> (forall i :: 0 <= i < |board.s| ==> Accepted(board.s[i])) && !next.OtherNext?)
    ensures board.Str? && (exists i :: 0 <= i < |board.s| && !Accepted(board.s[i])) ==> r == Err("ValueError")
    ensures board.Bitarrays? && r.Ok? ==> r.value == Bits(board.bits, board.occupied, NextBit(next))
    ensures board.Str? && r.Ok? ==> r.value == Bits(BoardBits(board.s), MaskBits(board.s), NextBit(next))
  {
    match board
    case Bitarrays(b, m) =>
      if next.OtherNext? then Err("TypeError: Expected next to be bool, since board is a tuple")
      else Ok(Bits(b, m, NextBit(next)))
    case Str(s) =>
      if exists i :: 0 <= i < |s| && !Accepted(s[i]) then Err("ValueError")
      else if next.OtherNext? then Err("TypeError: Expected next to be str, since board is a str")
      else Ok(Bits(BoardBits(s), MaskBits(s), NextBit(next)))
  }

  /** Both arrays cover the 36 squares. */
  predicate Sized(g: Bits)
  {
    |g.board| == 36 && |g.mask| == 36
  }

  /** Every X square is occupied: the encoding a board string produces. */
  predicate Consistent(g: Bits)
    requires Sized(g)
  {
    forall i :: 0 <= i < 36 && g.board[i] ==> g.mask[i]
  }

  /** The character `__str__` shows for square `i`: 'O' where the two bits differ, else 'X' where occupied. */
  function Cell(g: Bits, i: int): char
    requires Sized(g) && 0 <= i < 36
  {
    if g.board[i] != g.mask[i] then 'O' else if g.mask[i] then 'X' else '-'
  }

  function CellsOf(g: Bits): (c: Reversi.Cells)
    requires Sized(g)
    ensures forall i :: 0 <= i < 36 ==> c[i] == Cell(g, i)
  {
    seq(36, i requires 0 <= i < 36 => Cell(g, i))
  }

  /** A board of '-', 'X' and 'O'. */
  predicate Plain(s: string)
  {
    forall i :: 0 <= i < |s| ==> s[i] == '-' || s[i] == 'X' || s[i] == 'O'
  }

  /** A board string is accepted, encodes consistently, and is shown back unchanged. */
  lemma TextRoundTrip(s: Reversi.Cells, next: NextArg)
    requires Plain(s) && !next.OtherNext?
    ensures Make(Str(s), next).Ok?
    ensures var g := Make(Str(s), next).value; Sized(g) && Consistent(g) && CellsOf(g) == s
  {
  }

  /**
   * The inner loop of `check_directions`: an empty square stops the ray,
   * a square whose X bit (`board & mask`) equals `next` is passed over,
   * and any other occupied square closes the ray, flagging it if
   * something was passed over.
   */
  predicate BitRay(g: Bits, i: int, offset: int, toFlip: bool)
    requires Sized(g) && offset != 0
    decreases if offset < 0 then i + 1 else 36 - i
  {
    if !(0 <= i < 36) || !(g.board[i] || g.mask[i]) then false
    else if (g.board[i] && g.mask[i]) == g.next then BitRay(g, i + offset, offset, true)
    else toFlip
  }

  /** The eight bits `check_directions(x)` returns, first ray first. */
  function BitFlags(g: Bits, x: int): (f: seq<bool>)
    requires Sized(g)
    ensures |f| == 8
    ensures forall k :: 0 <= k < 8 ==> f[k] == BitRay(g, x + Reversi.Offset(k), Reversi.Offset(k), false)
  {
    seq(8, k requires 0 <= k < 8 => BitRay(g, x + Reversi.Offset(k), Reversi.Offset(k), false))
  }

  /** `check_directions(x)`, with `bitarray(8)` starting cleared. */
  method CheckDirections(g: Bits, x: int) returns (directions: seq<bool>)
    requires Sized(g) && 0 <= x < 36
    ensures directions == BitFlags(g, x)
  {
    directions := seq(8, _ => false);
    for n := 0 to 8
      invariant |directions| == 8
      invariant forall k :: 0 <= k < n ==> directions[k] == BitFlags(g, x)[k]
      invariant forall k :: n <= k < 8 ==> !directions[k]
    {
      var offset := Reversi.Offset(n);
      var toFlip := false;
      var i := x + offset;
      while 0 <= i < 36
        invariant BitRay(g, i, offset, toFlip) == BitFlags(g, x)[n]
        invariant forall k :: n <= k < 8 ==> !directions[k]
        invariant |directions| == 8
        decreases if offset < 0 then i + 1 else 36 - i
      {
        if !(g.board[i] || g.mask[i]) {
          break;
        }
        if (g.board[i] && g.mask[i]) == g.next {
          toFlip := true;
        } else if toFlip {
          directions := directions[n := true];
          break;
        } else {
          break;
        }
        i := i + offset;
      }
    }
  }

  /**
   * On a board string, the ray test with X to move (`next` set) is main.py's
   * ray test with O to move, and the other way round.
   */
  lemma {:induction false} BitRayInverted(s: Reversi.Cells, next: NextArg, i: int, offset: int, toFlip: bool)
    requires Plain(s) && !next.OtherNext? && offset != 0
    ensures var g := Make(Str(s), next).value;
      Sized(g) && BitRay(g, i, offset, toFlip) == Reversi.Ray(s, if g.next then 'O' else 'X', i, offset, toFlip)
    decreases if offset < 0 then i + 1 else 36 - i
  {
    if 0 <= i < 36 && s[i] != '-' {
      BitRayInverted(s, next, i + offset, offset, true);
    }
  }

  /** `check_directions` of test.py flags the rays main.py flags for the other player. */
  lemma FlagsInverted(s: Reversi.Cells, next: NextArg, x: int)
    requires Plain(s) && !next.OtherNext?
    ensures var g := Make(Str(s), next).value;
      Sized(g) && BitFlags(g, x) == Reversi.Flags(Reversi.Board(s, if g.next then 'O' else 'X'), x)
  {
    var g := Make(Str(s), next).value;
    forall k | 0 <= k < 8
      ensures BitFlags(g, x)[k] == Reversi.Flags(Reversi.Board(s, if g.next then 'O' else 'X'), x)[k]
    {
      BitRayInverted(s, next, x + Reversi.Offset(k), Reversi.Offset(k), false);
    }
  }

  /** The inner loop of `move`: squares whose X bit equals `next` are set to `next` until the first that differs. */
  function BitPaint(g: Bits, nb: seq<bool>, i: int, offset: int): (r: seq<bool>)
    requires Sized(g) && |nb| == 36 && offset != 0
    ensures |r| == 36
    ensures forall j :: 0 <= j < 36 && r[j] != nb[j] ==> r[j] == g.next && (g.board[j] && g.mask[j]) == g.next
    ensures forall j :: 0 <= j < 36 && (if offset > 0 then j < i else j > i) ==> r[j] == nb[j]
    decreases if offset < 0 then i + 1 else 36 - i
  {
    if !(0 <= i < 36) || (g.board[i] && g.mask[i]) != g.next then nb
    else BitPaint(g, nb[i := g.next], i + offset, offset)
  }

  /** Rays `n` and later, each painted when `directions[n]` is set. */
  function BitPaintFrom(g: Bits, nb: seq<bool>, x: int, directions: seq<bool>, n: nat): (r: seq<bool>)
    requires Sized(g) && |nb| == 36 && |directions| == 8 && n <= 8
    ensures |r| == 36
    ensures forall j :: 0 <= j < 36 && r[j] != nb[j] ==> r[j] == g.next && (g.board[j] && g.mask[j]) == g.next
    ensures 0 <= x < 36 ==> r[x] == nb[x]
    decreases 8 - n
  {
    if n == 8 then nb
    else BitPaintFrom(g, if directions[n] then BitPaint(g, nb, x + Reversi.Offset(n), Reversi.Offset(n)) else nb, x, directions, n + 1)
  }

  /** The board `move(x, directions)` returns: the painted bits, the old mask, the other player. */
  function BitSuccessor(g: Bits, x: int, directions: seq<bool>): (r: Bits)
    requires Sized(g) && 0 <= x < 36 && |directions| == 8
    ensures Sized(r)
  {
    Bits(BitPaintFrom(g, g.board[x := g.next], x, directions, 0), g.mask, !g.next)
  }

  /** `move(x, directions)`; the copied mask with bit `x` set is built and dropped. */
  method Move(g: Bits, x: int, directions: seq<bool>) returns (r: Bits)
    requires Sized(g) && 0 <= x < 36 && |directions| == 8
    ensures r == BitSuccessor(g, x, directions)
  {
    var newMask := g.mask[x := true];
    var newBoard := g.board[x := g.next];
    for n := 0 to 8
      invariant |newBoard| == 36
      invariant BitPaintFrom(g, newBoard, x, directions, n) == BitSuccessor(g, x, directions).board
    {
      if directions[n] {
        newBoard := PaintRay(g, newBoard, x + Reversi.Offset(n), Reversi.Offset(n));
      }
    }
    r := Bits(newBoard, g.mask, !g.next);
  }

  /** The inner loop of `move` for one ray. */
  method PaintRay(g: Bits, start: seq<bool>, from: int, offset: int) returns (nb: seq<bool>)
    requires Sized(g) && |start| == 36 && offset != 0
    ensures nb == BitPaint(g, start, from, offset)
  {
    nb := start;
    var i := from;
    while 0 <= i < 36
      invariant |nb| == 36
      invariant BitPaint(g, nb, i, offset) == BitPaint(g, start, from, offset)
      decreases if offset < 0 then i + 1 else 36 - i
    {
      if (g.board[i] && g.mask[i]) == g.next {
        nb := nb[i := g.next];
      } else {
        break;
      }
      i := i + offset;
    }
  }

  /**
   * On a consistent board a move changes only bit `x` of `board`: every
   * square a ray rewrites already holds `next`. The mask is unchanged, so
   * square `x` stays unoccupied, and the turn passes.
   */
  lemma MoveChangesOnlyX(g: Bits, x: int, directions: seq<bool>)
    requires Sized(g) && Consistent(g) && 0 <= x < 36 && |directions| == 8
    ensures BitSuccessor(g, x, directions) == Bits(g.board[x := g.next], g.mask, !g.next)
  {
    var start := g.board[x := g.next];
    var r := BitSuccessor(g, x, directions).board;
    forall j | 0 <= j < 36
      ensures r[j] == start[j]
    {
    }
  }

  /**
   * Shown as a string, a move on an empty square of a board string puts
   * an 'O' there when X moves and leaves it empty when O moves; no other
   * square changes.
   */
  lemma MoveShown(s: Reversi.Cells, next: NextArg, x: int, directions: seq<bool>)
    requires Plain(s) && !next.OtherNext? && 0 <= x < 36 && s[x] == '-' && |directions| == 8
    ensures var g := Make(Str(s), next).value;
      Sized(g) && CellsOf(BitSuccessor(g, x, directions)) == s[x := if g.next then 'O' else '-']
  {
    var g := Make(Str(s), next).value;
    TextRoundTrip(s, next);
    MoveChangesOnlyX(g, x, directions);
  }

  /** The successors `moves` lists for the squares below `n`: one for every unoccupied square. */
  function BitMovesBelow(g: Bits, n: nat): (ms: seq<Bits>)
    requires Sized(g) && n <= 36
    ensures |ms| == Count(g.mask[..n], false)
  {
    if n == 0 then []
    else
      assert g.mask[..n] == g.mask[..n - 1] + [g.mask[n - 1]];
      CountAppend(g.mask[..n - 1], [g.mask[n - 1]], false);
      BitMovesBelow(g, n - 1) + (if !g.mask[n - 1] then [BitSuccessor(g, n - 1, BitFlags(g, n - 1))] else [])
  }

  /** `moves()`: `if valid` holds for every eight-bit array, so every unoccupied square yields a successor. */
  method Moves(g: Bits) returns (ms: seq<Bits>)
    requires Sized(g)
    ensures ms == BitMovesBelow(g, 36)
  {
    ms := [];
    for i := 0 to 36
      invariant ms == BitMovesBelow(g, i)
    {
      if !g.mask[i] {
        var valid := CheckDirections(g, i);
        var m := Move(g, i, valid);
        ms := ms + [m];
      }
    }
  }

  /** `__str__`: a character per mask bit, then 'O' wherever the two bits differ, as six rows. */
  method Show(g: Bits) returns (s: string)
    requires Sized(g)
    ensures s == Reversi.Rows(CellsOf(g))
  {
    var b: seq<char> := [];
    for i := 0 to |g.mask|
      invariant |b| == i
      invariant forall j :: 0 <= j < i ==> b[j] == (if g.mask[j] then 'X' else '-')
    {
      b := b + [if g.mask[i] then 'X' else '-'];
    }
    for i := 0 to 36
      invariant |b| == 36
      invariant forall j :: 0 <= j < i ==> b[j] == Cell(g, j)
      invariant forall j :: i <= j < 36 ==> b[j] == (if g.mask[j] then 'X' else '-')
    {
      b := b[i := if g.board[i] != g.mask[i] then 'O' else b[i]];
    }
    assert b == CellsOf(g);
    s := Reversi.Rows(b);
  }

  /** A board built from a string is shown as main.py shows that string. */
  lemma ShowText(s: Reversi.Cells, next: NextArg)
    requires Plain(s) && !next.OtherNext?
    ensures var g := Make(Str(s), next).value;
      Sized(g) && Reversi.Rows(CellsOf(g)) == Reversi.Show(Reversi.Board(s, if g.next then 'X' else 'O'))
  {
    TextRoundTrip(s, next);
  }
}
