/**
 * The Rust tic-tac-toe engine (learning/src/tictactoe.rs): a board of nine
 * bytes and the player to move, the verdict on a board, the list of moves
 * from it, the string key of a board, and the board update of a match.
 *
 * Cells hold arbitrary bytes; `b'_'` marks a blank. The player to move is a
 * `char`, written into a cell as `next as u8` (its code modulo 256).
 */
module TicTacToe {
  import opened Wrappers
  import opened Text

  type Byte = b: int | 0 <= b < 256

  /** `[u8; 9]`, cells numbered row by row. */
  type Board = b: seq<Byte> | |b| == 9 witness [95, 95, 95, 95, 95, 95, 95, 95, 95]

  /** `b'_'`. */
  const BLANK: Byte := '_' as int

  datatype TicTacToe = TicTacToe(board: Board, next: char)

  /** `games::Status`. */
  datatype Status = Win(c: char) | Draw | Playing

  /** `c as u8`: the low byte of the character's code. */
  function Mark(c: char): Byte
  {
    (c as int) % 256
  }

  /** `TicTacToe::new`: an empty board with X to move. */
  function New(): (t: TicTacToe)
    ensures |t.board| == 9 && forall i :: 0 <= i < 9 ==> t.board[i] == BLANK
    ensures t.next == 'X'
  {
    TicTacToe([BLANK, BLANK, BLANK, BLANK, BLANK, BLANK, BLANK, BLANK, BLANK], 'X')
  }

  /** `TicTacToe::from`: X moves when the number of blanks is odd, O when it is even. */
  function From(board: Board): (t: TicTacToe)
    ensures t.board == board
    ensures t.next == 'X' || t.next == 'O'
  {
    TicTacToe(board, if Count(board, BLANK) % 2 == 0 then 'O' else 'X')
  }

  /** An empty board read back by `from` is the board of `new`. */
  lemma NewIsFrom()
    ensures From(New().board) == New()
  {
    var b := New().board;
    CountAll(b, BLANK);
    assert Count(b, BLANK) % 2 == 1;
  }

  lemma {:induction false} CountAll<T>(s: seq<T>, c: T)
    requires forall i :: 0 <= i < |s| ==> s[i] == c
    ensures Count(s, c) == |s|
  {
    if s != [] {
      CountAll(s[1..], c);
    }
  }

  /** Playing one blank cell hands the move to the other player. */
  lemma FromAlternates(b: Board, i: nat, c: Byte)
    requires i < 9 && b[i] == BLANK && c != BLANK
    ensures From(b[i := c]).next != From(b).next
  {
    CountUpdate(b, i, c, BLANK);
  }

  // ------------------------------------------------------------ evaluation

  /**
   * The eight lines of three cells, in the order they are tried: the rows,
   * the columns, then the two diagonals.
   */
  function Line(k: nat): (l: (nat, nat, nat))
    requires k < 8
    ensures l.0 < 9 && l.1 < 9 && l.2 < 9
  {
    if k == 0 then (0, 1, 2)
    else if k == 1 then (3, 4, 5)
    else if k == 2 then (6, 7, 8)
    else if k == 3 then (0, 3, 6)
    else if k == 4 then (1, 4, 7)
    else if k == 5 then (2, 5, 8)
    else if k == 6 then (0, 4, 8)
    else (2, 4, 6)
  }

  /** Line `k` holds three equal non-blank cells. */
  predicate Complete(b: Board, k: nat)
    requires k < 8
  {
    var (p, q, r) := Line(k);
    b[p] == b[q] && b[q] == b[r] && b[p] != BLANK
  }

  /**
   * The reference reading of a board: the first complete line from `k`
   * on, in the order of `Line`.
   */
  function FirstComplete(b: Board, k: nat): (r: Option<nat>)
    requires k <= 8
    ensures r.Some? ==> k <= r.value < 8 && Complete(b, r.value)
    ensures r.Some? ==> forall j :: k <= j < r.value ==> !Complete(b, j)
    ensures r.None? ==> forall j :: k <= j < 8 ==> !Complete(b, j)
    decreases 8 - k
  {
    if k == 8 then None
    else if Complete(b, k) then Some(k)
    else FirstComplete(b, k + 1)
  }

  /**
   * The verdict the rules give: the symbol of the first complete line wins;
   * otherwise the game goes on while a blank is left and is drawn when none is.
   */
  function Verdict(b: Board): (s: Status)
    ensures s.Win? <==> exists k :: 0 <= k < 8 && Complete(b, k)
    ensures s.Win? ==> exists k :: 0 <= k < 8 && Complete(b, k) && s.c == b[Line(k).0] as char
    ensures s == Playing <==> BLANK in b && forall k :: 0 <= k < 8 ==> !Complete(b, k)
    ensures s == Draw <==> BLANK !in b && forall k :: 0 <= k < 8 ==> !Complete(b, k)
  {
    match FirstComplete(b, 0)
    case Some(k) => Win(b[Line(k).0] as char)
    case None => if BLANK in b then Playing else Draw
  }

  /** The row loop of `evaluate`, from row `row` on. */
  function Rows(b: Board, row: nat): Option<Byte>
    requires row <= 3
    decreases 3 - row
  {
    if row == 3 then None
    else if b[0 + row * 3] == b[1 + row * 3] && b[1 + row * 3] == b[2 + row * 3] && b[0 + row * 3] != BLANK then
      Some(b[0 + row * 3])
    else Rows(b, row + 1)
  }

  /** The column loop of `evaluate`, from column `i` on. */
  function Columns(b: Board, i: nat): Option<Byte>
    requires i <= 3
    decreases 3 - i
  {
    if i == 3 then None
    else if b[i] == b[i + 3] && b[i + 3] == b[i + 6] && b[i] != BLANK then Some(b[i])
    else Columns(b, i + 1)
  }

  /**
   * `evaluate`: rows, then columns, then the two diagonals (reported by
   * the centre cell), then the search for a blank.
   */
  function Evaluate(t: TicTacToe): (s: Status)
    ensures s == Verdict(t.board)
  {
    var b := t.board;
    match Rows(b, 0)
    case Some(c) => Win(c as char)
    case None =>
      match Columns(b, 0)
      case Some(c) => Win(c as char)
      case None =>
        if ((b[0] == b[4] && b[4] == b[8]) || (b[2] == b[4] && b[4] == b[6])) && b[4] != BLANK then
          Win(b[4] as char)
        else if BLANK in b then Playing
        else Draw
  }

  // ------------------------------------------------------------ moves

  /** The move into blank cell `i`: the mover's mark there, read back with `from`. */
  function Placed(t: TicTacToe, i: nat): TicTacToe
    requires i < 9
  {
    From(t.board[i := Mark(t.next)])
  }

  /**
   * The moves into the first `p` cells, in increasing cell order: for
   * each blank cell its index and the board after playing it.
   */
  function Placements(t: TicTacToe, p: nat): (r: seq<(nat, TicTacToe)>)
    requires p <= 9
    ensures forall k :: 0 <= k < |r| ==> r[k].0 < p && t.board[r[k].0] == BLANK && r[k].1 == Placed(t, r[k].0)
    ensures forall k, l :: 0 <= k < l < |r| ==> r[k].0 < r[l].0
  {
    if p == 0 then []
    else Placements(t, p - 1) + (if t.board[p - 1] == BLANK then [(p - 1, Placed(t, p - 1))] else [])
  }

  /** One move per blank cell among the first `p`. */
  lemma {:induction false} PlacementsCount(t: TicTacToe, p: nat)
    requires p <= 9
    ensures |Placements(t, p)| == Count(t.board[..p], BLANK)
  {
    if p > 0 {
      PlacementsCount(t, p - 1);
      assert t.board[..p] == t.board[..p - 1] + [t.board[p - 1]];
      CountAppend(t.board[..p - 1], [t.board[p - 1]], BLANK);
    }
  }

  /** No blank cell among the first `p` is missing from the moves. */
  lemma {:induction false} PlacementsCover(t: TicTacToe, p: nat, i: nat)
    requires i < p <= 9 && t.board[i] == BLANK
    ensures exists k :: 0 <= k < |Placements(t, p)| && Placements(t, p)[k].0 == i
  {
    PlacementsExtend(t, p);
    if i == p - 1 {
      assert Placements(t, p)[|Placements(t, p - 1)|].0 == i;
    } else {
      PlacementsCover(t, p - 1, i);
      var k :| 0 <= k < |Placements(t, p - 1)| && Placements(t, p - 1)[k].0 == i;
      assert Placements(t, p)[k].0 == i;
    }
  }

  /** The moves into the first `p` cells extend those into the first `p - 1`. */
  lemma PlacementsExtend(t: TicTacToe, p: nat)
    requires 0 < p <= 9
    ensures |Placements(t, p - 1)| <= |Placements(t, p)|
    ensures forall k :: 0 <= k < |Placements(t, p - 1)| ==> Placements(t, p)[k] == Placements(t, p - 1)[k]
    ensures t.board[p - 1] == BLANK ==> |Placements(t, p - 1)| < |Placements(t, p)| && Placements(t, p)[|Placements(t, p - 1)|].0 == p - 1
  {
  }

  /**
   * What `moves` returns: nothing once the game is won or drawn, otherwise
   * one move per blank cell, in increasing cell order.
   */
  function Successors(t: TicTacToe): (r: Option<seq<(nat, TicTacToe)>>)
  {
    if Evaluate(t).Playing? then Some(Placements(t, 9)) else None
  }

  /**
   * `moves` lists exactly the blank cells, each once and in increasing
   * order, each with the board after playing it; it lists nothing only
   * when the game is over.
   */
  lemma SuccessorsAreBlanks(t: TicTacToe)
    ensures Successors(t).None? <==> !Verdict(t.board).Playing?
    ensures Successors(t).Some? ==> |Successors(t).value| == Count(t.board, BLANK) > 0
    ensures Successors(t).Some? ==> forall i :: 0 <= i < 9 && t.board[i] == BLANK <==>
      exists k :: 0 <= k < |Successors(t).value| && Successors(t).value[k].0 == i
  {
    PlacementsCount(t, 9);
    assert t.board[..9] == t.board;
    PlacementsExact(t);
  }

  /** The moves into all nine cells name exactly the blank cells. */
  lemma PlacementsExact(t: TicTacToe)
    ensures forall i :: 0 <= i < 9 && t.board[i] == BLANK <==>
      exists k :: 0 <= k < |Placements(t, 9)| && Placements(t, 9)[k].0 == i
  {
    forall i | 0 <= i < 9 && t.board[i] == BLANK
      ensures exists k :: 0 <= k < |Placements(t, 9)| && Placements(t, 9)[k].0 == i
    {
      PlacementsCover(t, 9, i);
    }
    var ps := Placements(t, 9);
    forall i | exists k :: 0 <= k < |ps| && ps[k].0 == i
      ensures 0 <= i < 9 && t.board[i] == BLANK
    {
      var k :| 0 <= k < |ps| && ps[k].0 == i;
    }
  }

  /** `moves`, which pushes one move per blank cell. */
  method Moves(t: TicTacToe) returns (r: Option<seq<(nat, TicTacToe)>>)
    ensures r == Successors(t)
  {
    match Evaluate(t)
    case Win(_) => return None;
    case Draw => return None;
    case Playing =>
      var moves: seq<(nat, TicTacToe)> := [];
      for i := 0 to 9
        invariant moves == Placements(t, i)
      {
        if t.board[i] == BLANK {
          var newBoard := t.board[i := Mark(t.next)];
          moves := moves + [(i, From(newBoard))];
        }
      }
      return Some(moves);
  }

  /**
   * A board a game can reach: every cell blank, X or O, X has as many
   * marks as O or one more, and the player to move follows from that.
   */
  predicate Legal(t: TicTacToe)
  {
    (forall i :: 0 <= i < 9 ==> t.board[i] in {BLANK, 'X' as int, 'O' as int}) &&
    (Count(t.board, 'X' as int) == Count(t.board, 'O' as int) ||
     Count(t.board, 'X' as int) == Count(t.board, 'O' as int) + 1) &&
    t.next == (if Count(t.board, 'X' as int) == Count(t.board, 'O' as int) then 'X' else 'O')
  }

  /** The cells are the blanks, the X marks and the O marks. */
  lemma {:induction false} CountCells(s: seq<Byte>)
    requires forall i :: 0 <= i < |s| ==> s[i] in {BLANK, 'X' as int, 'O' as int}
    ensures Count(s, BLANK) + Count(s, 'X' as int) + Count(s, 'O' as int) == |s|
  {
    if s != [] {
      CountCells(s[1..]);
    }
  }

  /** On a legal board `from` picks the same player as the mark counts do. */
  lemma LegalFrom(t: TicTacToe)
    requires Legal(t)
    ensures From(t.board) == t
  {
    CountCells(t.board);
  }

  /** Marking blank cell `i` with X or O moves one cell from the blanks to that mark. */
  lemma Placing(b: seq<Byte>, i: nat, m: Byte)
    requires i < |b| && b[i] == BLANK && (m == 'X' as int || m == 'O' as int)
    ensures Count(b[i := m], 'X' as int) == Count(b, 'X' as int) + (if m == 'X' as int then 1 else 0)
    ensures Count(b[i := m], 'O' as int) == Count(b, 'O' as int) + (if m == 'O' as int then 1 else 0)
    ensures Count(b[i := m], BLANK) + 1 == Count(b, BLANK)
  {
    CountUpdate(b, i, m, 'X' as int);
    CountUpdate(b, i, m, 'O' as int);
    CountUpdate(b, i, m, BLANK);
  }

  lemma Even(n: int, k: int)
    requires n == 2 * k
    ensures n % 2 == 0
  {
  }

  lemma Odd(n: int, k: int)
    requires n == 2 * k + 1
    ensures n % 2 == 1
  {
  }

  /** Playing a blank cell of a legal board gives a legal board. */
  lemma PlacedLegal(t: TicTacToe, i: nat)
    requires Legal(t) && i < 9 && t.board[i] == BLANK
    ensures Legal(Placed(t, i))
  {
    var o := Count(t.board, 'O' as int);
    CountCells(t.board);
    if t.next == 'X' {
      assert Mark(t.next) == 'X' as int;
      var s := t.board[i := 'X' as int];
      Placing(t.board, i, 'X' as int);
      Even(Count(s, BLANK), 4 - o);
      assert Placed(t, i) == TicTacToe(s, 'O');
    } else {
      assert Mark(t.next) == 'O' as int;
      var s := t.board[i := 'O' as int];
      Placing(t.board, i, 'O' as int);
      Odd(Count(s, BLANK), 3 - o);
      assert Placed(t, i) == TicTacToe(s, 'X');
    }
  }

  /** Every move from a legal board leads to a legal board. */
  lemma SuccessorsLegal(t: TicTacToe)
    requires Legal(t)
    ensures Successors(t).Some? ==> forall k :: 0 <= k < |Successors(t).value| ==> Legal(Successors(t).value[k].1)
  {
    if Successors(t).Some? {
      forall k | 0 <= k < |Successors(t).value|
        ensures Legal(Successors(t).value[k].1)
      {
        PlacedLegal(t, Successors(t).value[k].0);
      }
    }
  }

  /** `format`: the nine bytes read as characters. */
  function Format(t: TicTacToe): (s: string)
    ensures |s| == 9 && forall i :: 0 <= i < 9 ==> s[i] as int == t.board[i]
  {
    seq(9, i requires 0 <= i < 9 => t.board[i] as char)
  }

  /** Different boards have different keys. */
  lemma FormatInjective(t: TicTacToe, u: TicTacToe)
    requires Format(t) == Format(u)
    ensures t.board == u.board
  {
    forall i | 0 <= i < 9
      ensures t.board[i] == u.board[i]
    {
      assert Format(t)[i] == Format(u)[i];
    }
  }

  // ------------------------------------------------------------ a match

  /**
   * The board update of `play` for a parsed index: a blank cell in range
   * receives the mover's mark and the move passes to the other player; any
   * other index changes nothing.
   */
  function Apply(t: TicTacToe, index: nat): TicTacToe
  {
    if index < 9 && t.board[index] == BLANK then
      TicTacToe(t.board[index := Mark(t.next)], if t.next == 'X' then 'O' else 'X')
    else t
  }

  /** On a legal board in play, playing a blank cell is the matching entry of `moves`. */
  lemma ApplyIsMove(t: TicTacToe, k: nat)
    requires Legal(t) && Evaluate(t).Playing?
    requires k < |Successors(t).value|
    ensures Apply(t, Successors(t).value[k].0) == Successors(t).value[k].1
  {
    var (i, s) := Successors(t).value[k];
    LegalFrom(t);
    FromAlternates(t.board, i, Mark(t.next));
  }

  /** What `play` records after a move: the new key, its number of moves and the cell played. */
  function Record(t: TicTacToe, index: nat): (e: (string, nat, nat))
    ensures e.0 == Format(t) && e.2 == index
    ensures Evaluate(t).Playing? ==> e.1 == Count(t.board, BLANK) > 0
    ensures !Evaluate(t).Playing? ==> e.1 == 0
  {
    SuccessorsAreBlanks(t);
    (Format(t), if Successors(t).Some? then |Successors(t).value| else 0, index)
  }

  /**
   * One answer of the `play` loop applied to a game and its history: a mover
   * other than X or O panics, an answer that is not a `usize` panics, a blank
   * cell in range is played and recorded, and anything else changes nothing.
   */
  function TurnStep(t: TicTacToe, h: seq<(string, nat, nat)>, input: Option<string>): (r: Result<(TicTacToe, seq<(string, nat, nat)>), string>)
    ensures r.Ok? <==> (t.next == 'X' || t.next == 'O') && (input.None? || ParseUsize(input.value).Some?)
    ensures r.Ok? && input.None? ==> r.value == (t, h)
    ensures r.Ok? && input.Some? ==> var index := ParseUsize(input.value).value;
      r.value.0 == Apply(t, index) &&
      r.value.1 == if index < 9 && t.board[index] == BLANK then h + [Record(r.value.0, index)] else h
  {
    if t.next != 'X' && t.next != 'O' then Err("Invalid player")
    else if input.None? then Ok((t, h))
    else match ParseUsize(input.value)
      case None => Err("called `Result::unwrap()` on an `Err` value: ParseIntError")
      case Some(index) =>
        if index < 9 && t.board[index] == BLANK then
          var u := Apply(t, index);
          Ok((u, h + [Record(u, index)]))
        else Ok((t, h))
  }

  /** Where a match stands: the verdict or panic, the game, the history and the answers read. */
  datatype Match = Match(verdict: Result<Status, string>, game: TicTacToe, history: seq<(string, nat, nat)>, used: nat)

  /**
   * `play` fed with `inputs`: answers are applied in turn until one panics or
   * the verdict after it is a win or a draw; when the answers run out the
   * verdict on the board is returned.
   */
  function Run(t: TicTacToe, h: seq<(string, nat, nat)>, inputs: seq<Option<string>>): (m: Match)
    ensures m.used <= |inputs|
    ensures m.verdict.Ok? ==> m.verdict.value == Evaluate(m.game)
    ensures m.verdict.Ok? && m.verdict.value.Playing? ==> m.used == |inputs|
    ensures m.verdict.Ok? && m.used < |inputs| ==> !m.verdict.value.Playing? && 0 < m.used
    ensures m.verdict.Err? ==> 0 < m.used && TurnStep(m.game, m.history, inputs[m.used - 1]) == Err(m.verdict.error)
    decreases |inputs|
  {
    if inputs == [] then Match(Ok(Evaluate(t)), t, h, 0)
    else match TurnStep(t, h, inputs[0])
      case Err(e) => Match(Err(e), t, h, 1)
      case Ok((u, h')) =>
        if !Evaluate(u).Playing? then Match(Ok(Evaluate(u)), u, h', 1)
        else
          var m := Run(u, h', inputs[1..]);
          assert m.verdict.Err? ==> inputs[1..][m.used - 1] == inputs[m.used];
          m.(used := m.used + 1)
  }

  /** A match that reads more than one answer got past the first one still in play. */
  lemma RunFirst(t: TicTacToe, h: seq<(string, nat, nat)>, inputs: seq<Option<string>>)
    requires 1 < Run(t, h, inputs).used
    ensures TurnStep(t, h, inputs[0]).Ok? && Evaluate(TurnStep(t, h, inputs[0]).value.0).Playing?
  {
  }

  /** An answer that leaves the game in play hands the rest of the match to the next answers. */
  lemma RunCons(t: TicTacToe, h: seq<(string, nat, nat)>, inputs: seq<Option<string>>)
    requires inputs != [] && TurnStep(t, h, inputs[0]).Ok?
    requires Evaluate(TurnStep(t, h, inputs[0]).value.0).Playing?
    ensures var next := TurnStep(t, h, inputs[0]).value;
      var m := Run(next.0, next.1, inputs[1..]);
      Run(t, h, inputs) == m.(used := m.used + 1)
  {
  }

  /** The same unfolding for the match over the first `k` answers. */
  lemma RunConsPrefix(t: TicTacToe, h: seq<(string, nat, nat)>, inputs: seq<Option<string>>, k: nat)
    requires 0 < k <= |inputs| && TurnStep(t, h, inputs[0]).Ok?
    requires Evaluate(TurnStep(t, h, inputs[0]).value.0).Playing?
    ensures var next := TurnStep(t, h, inputs[0]).value;
      var m := Run(next.0, next.1, inputs[1..][..k - 1]);
      Run(t, h, inputs[..k]) == m.(used := m.used + 1)
  {
    var pre := inputs[..k];
    assert pre[0] == inputs[0] && pre[1..] == inputs[1..][..k - 1];
    RunCons(t, h, pre);
  }

  /**
   * Every answer before the last one read left the game in play: the match
   * over the first `k` of them reads them all and is still playing.
   */
  lemma {:induction false} RunPrefixPlaying(t: TicTacToe, h: seq<(string, nat, nat)>, inputs: seq<Option<string>>, k: nat)
    requires 0 < k < Run(t, h, inputs).used
    ensures Run(t, h, inputs[..k]).verdict == Ok(Playing) && Run(t, h, inputs[..k]).used == k
    decreases k
  {
    RunFirst(t, h, inputs);
    var next := TurnStep(t, h, inputs[0]).value;
    RunCons(t, h, inputs);
    RunConsPrefix(t, h, inputs, k);
    if k > 1 {
      RunPrefixPlaying(next.0, next.1, inputs[1..], k - 1);
    }
  }

  /** The rest of a match continues from where its first `k` answers left it. */
  lemma {:induction false} RunPrefix(t: TicTacToe, h: seq<(string, nat, nat)>, inputs: seq<Option<string>>, k: nat)
    requires 0 < k < Run(t, h, inputs).used
    ensures var p := Run(t, h, inputs[..k]);
      var m := Run(p.game, p.history, inputs[k..]);
      Run(t, h, inputs) == m.(used := m.used + k)
    decreases k
  {
    RunFirst(t, h, inputs);
    var next := TurnStep(t, h, inputs[0]).value;
    RunCons(t, h, inputs);
    RunConsPrefix(t, h, inputs, k);
    if k == 1 {
      assert inputs[1..][..0] == [];
      assert inputs[1..] == inputs[k..];
    } else {
      RunPrefix(next.0, next.1, inputs[1..], k - 1);
      assert inputs[1..][k - 1..] == inputs[k..];
    }
  }

  /** The game a match is playing, and what `play` records of each applied move. */
  class Table {
    var game: TicTacToe
    /** (key of the new board, number of its moves, cell played). */
    var history: seq<(string, nat, nat)>

    constructor (game: TicTacToe)
      ensures this.game == game && history == []
    {
      this.game := game;
      history := [];
    }

    /**
     * One pass of the `play` loop with the player's answer `input`: a mover
     * other than X or O panics, an answer that is not a `usize` panics, a usable
     * index updates the board and the history, and the verdict on the board is
     * returned. A panic leaves the game and the history as they were.
     */
    method Turn(input: Option<string>) returns (r: Result<Status, string>)
      modifies this
      ensures r.Ok? <==> (old(game).next == 'X' || old(game).next == 'O') && (input.None? || ParseUsize(input.value).Some?)
      ensures r.Err? ==> TurnStep(old(game), old(history), input) == Err(r.error) && game == old(game) && history == old(history)
      ensures r.Ok? ==> TurnStep(old(game), old(history), input) == Ok((game, history)) && r.value == Evaluate(game)
      ensures r.Ok? && input.Some? ==>
        ParseUsize(input.value).Some? && game == Apply(old(game), ParseUsize(input.value).value)
      ensures r.Ok? && input.None? ==> game == old(game)
      ensures r.Ok? && game != old(game) ==> history == old(history) + [Record(game, ParseUsize(input.value).value)]
      ensures r.Ok? && game == old(game) ==> history == old(history)
    {
      if game.next != 'X' && game.next != 'O' {
        return Err("Invalid player");
      }
      if input.Some? {
        var parsed := ParseUsize(input.value);
        if parsed.None? {
          return Err("called `Result::unwrap()` on an `Err` value: ParseIntError");
        }
        var index := parsed.value;
        if index < 9 && game.board[index] == BLANK {
          game := TicTacToe(game.board[index := Mark(game.next)], if game.next == 'X' then 'O' else 'X');
          var moves := Moves(game);
          var count: nat := if moves.Some? then |moves.value| else 0;
          history := history + [(Format(game), count, index)];
          assert history == old(history) + [Record(game, index)];
        }
      }
      return Ok(Evaluate(game));
    }

    /**
     * `play` fed with the players' answers in turn: it stops at the first
     * panic, win or draw, and returns that verdict; it only runs out of
     * answers while the game is still being played.
     */
    method Play(inputs: seq<Option<string>>) returns (r: Result<Status, string>, used: nat)
      modifies this
      ensures Match(r, game, history, used) == Run(old(game), old(history), inputs)
      ensures used <= |inputs|
      ensures r.Ok? && !r.value.Playing? ==> r.value == Evaluate(game)
      ensures r.Ok? && r.value.Playing? ==> used == |inputs| && Evaluate(game).Playing?
    {
      used := 0;
      r := Ok(Playing);
      while used < |inputs|
        invariant used <= |inputs|
        invariant r == Ok(Playing)
        invariant var m := Run(game, history, inputs[used..]);
          Run(old(game), old(history), inputs) == m.(used := m.used + used)
        decreases |inputs| - used
      {
        assert inputs[used..][0] == inputs[used] && inputs[used..][1..] == inputs[used + 1..];
        var s := Turn(inputs[used]);
        used := used + 1;
        if s.Err? || !s.value.Playing? {
          return s, used;
        }
      }
      r := Ok(Evaluate(game));
    }
  }
}
