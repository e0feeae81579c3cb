/**
 Win detection and the terminal test: a piece has won when it holds four
 cells in a row horizontally, vertically or along either diagonal; a board is
 terminal when either piece has won or no column is playable.
 */
module Win {

  import opened Board
  import opened Lines

  /**
   Some line of four on the board is held entirely by `p`, stated over lines
   in every direction at once.
   */
  ghost predicate HasFour(b: Board, p: Piece) {
    exists l: Line :: Fits(l) && forall i :: 0 <= i < WINDOW_LENGTH ==> CellAt(b, l, i) == p
  }

  /**
   The four cells from (r, c) in steps of (dr, dc) all hold `p`: one of the
   four-way comparisons in `winning_move`.
   */
  predicate RunFrom(b: Board, p: Piece, r: int, c: int, dr: int, dc: int)
    requires -1 <= dr <= 1 && -1 <= dc <= 1
    requires OnBoard(r, c) && OnBoard(r + 3 * dr, c + 3 * dc)
  {
    b[r][c] == p && b[r + dr][c + dc] == p && b[r + 2 * dr][c + 2 * dc] == p && b[r + 3 * dr][c + 3 * dc] == p
  }

  /**
   The win check as `winning_move` performs it: four families of start cells,
   each checked with four explicit cell comparisons. Finding no run
   (`winning_move` falls off its last loop and returns None) means false.
   */
  predicate WinningMove(b: Board, p: Piece) {
    || (exists c, r | 0 <= c < COLUMN_COUNT - 3 && 0 <= r < ROW_COUNT :: RunFrom(b, p, r, c, 0, 1))
    || (exists c, r | 0 <= c < COLUMN_COUNT && 0 <= r < ROW_COUNT - 3 :: RunFrom(b, p, r, c, 1, 0))
    || (exists c, r | 0 <= c < COLUMN_COUNT - 3 && 0 <= r < ROW_COUNT - 3 :: RunFrom(b, p, r, c, 1, 1))
    || (exists c, r | 0 <= c < COLUMN_COUNT - 3 && 3 <= r < ROW_COUNT :: RunFrom(b, p, r, c, -1, 1))
  }

  /** A line held by `p` is a run the comparisons of `winning_move` find, and conversely. */
  lemma RunIffLine(b: Board, p: Piece, l: Line)
    requires Fits(l)
    ensures OnBoard(l.row, l.col) && OnBoard(l.row + 3 * RowStep(l.dir), l.col + 3 * ColStep(l.dir))
    ensures RunFrom(b, p, l.row, l.col, RowStep(l.dir), ColStep(l.dir)) <==>
      forall i :: 0 <= i < WINDOW_LENGTH ==> CellAt(b, l, i) == p
  {
    assert OnBoard(RowAt(l, 0), ColAt(l, 0)) && OnBoard(RowAt(l, 3), ColAt(l, 3));
    var r, c, dr, dc := l.row, l.col, RowStep(l.dir), ColStep(l.dir);
    assert CellAt(b, l, 0) == b[r][c];
    assert CellAt(b, l, 1) == b[r + dr][c + dc];
    assert CellAt(b, l, 2) == b[r + 2 * dr][c + 2 * dc];
    assert CellAt(b, l, 3) == b[r + 3 * dr][c + 3 * dc];
  }

  /** A run of four found by the loops of `winning_move` is a line of four, and conversely. */
  lemma WinningMoveIffFour(b: Board, p: Piece)
    ensures WinningMove(b, p) <==> HasFour(b, p)
  {
    if WinningMove(b, p) {
      var l: Line;
      if exists c, r | 0 <= c < COLUMN_COUNT - 3 && 0 <= r < ROW_COUNT :: RunFrom(b, p, r, c, 0, 1) {
        var c, r :| 0 <= c < COLUMN_COUNT - 3 && 0 <= r < ROW_COUNT && RunFrom(b, p, r, c, 0, 1);
        l := Line(r, c, Horizontal);
      } else if exists c, r | 0 <= c < COLUMN_COUNT && 0 <= r < ROW_COUNT - 3 :: RunFrom(b, p, r, c, 1, 0) {
        var c, r :| 0 <= c < COLUMN_COUNT && 0 <= r < ROW_COUNT - 3 && RunFrom(b, p, r, c, 1, 0);
        l := Line(r, c, Vertical);
      } else if exists c, r | 0 <= c < COLUMN_COUNT - 3 && 0 <= r < ROW_COUNT - 3 :: RunFrom(b, p, r, c, 1, 1) {
        var c, r :| 0 <= c < COLUMN_COUNT - 3 && 0 <= r < ROW_COUNT - 3 && RunFrom(b, p, r, c, 1, 1);
        l := Line(r, c, Ascending);
      } else {
        var c, r :| 0 <= c < COLUMN_COUNT - 3 && 3 <= r < ROW_COUNT && RunFrom(b, p, r, c, -1, 1);
        l := Line(r, c, Descending);
      }
      assert Fits(l);
      RunIffLine(b, p, l);
    }
    if HasFour(b, p) {
      var l: Line :| Fits(l) && forall i :: 0 <= i < WINDOW_LENGTH ==> CellAt(b, l, i) == p;
      RunIffLine(b, p, l);
      assert OnBoard(RowAt(l, 0), ColAt(l, 0)) && OnBoard(RowAt(l, 3), ColAt(l, 3));
    }
  }

  /** Neither side has four in a row: the first two tests of the terminal check fail. */
  predicate NoWinner(b: Board) {
    !WinningMove(b, Player) && !WinningMove(b, Bot)
  }

  /** The game is over: someone has four in a row, or the board is full. */
  predicate IsTerminal(b: Board) {
    WinningMove(b, Player) || WinningMove(b, Bot) || |ValidLocations(b)| == 0
  }

  /** Terminal boards are exactly those where a piece has won or no column is playable. */
  lemma TerminalIff(b: Board)
    ensures IsTerminal(b) <==> HasFour(b, Player) || HasFour(b, Bot) || Full(b)
  {
    WinningMoveIffFour(b, Player);
    WinningMoveIffFour(b, Bot);
  }

  /** Nobody holds a run of four on the empty board. */
  lemma NoRunOnEmptyBoard(p: Piece)
    ensures !WinningMove(CreateBoard(), p)
  {
    var b := CreateBoard();
    forall r, c, dr, dc | -1 <= dr <= 1 && -1 <= dc <= 1 && OnBoard(r, c) && OnBoard(r + 3 * dr, c + 3 * dc)
      ensures !RunFrom(b, p, r, c, dr, dc)
    {
      assert b[r][c] == Empty;
    }
  }

  /** Nobody has won on the empty board and every column is open, so it is not terminal. */
  lemma EmptyBoardNotTerminal()
    ensures !IsTerminal(CreateBoard())
  {
    NoRunOnEmptyBoard(Player);
    NoRunOnEmptyBoard(Bot);
    CreateBoardIsOpen();
  }

}
