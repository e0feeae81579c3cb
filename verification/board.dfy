/**
 The Connect Four board: a 6 x 7 grid of cells, row 0 at the bottom, and the
 operations that inspect and fill it (column validity, the list of playable
 columns, the next open row of a column, dropping a piece).
 */
module Board {

  import opened Options

  const ROW_COUNT: int := 6
  const COLUMN_COUNT: int := 7
  const WINDOW_LENGTH: int := 4

  /** A cell holds nothing (0 in the Python board array), a player piece (1) or a bot piece (2). */
  datatype Cell = Empty | Player | Bot

  /** The pieces: the cell values other than Empty. */
  type Piece = c: Cell | c != Empty witness Player

  /** The other side; the evaluator scores threats of the opponent. */
  function Opponent(p: Piece): (q: Piece)
    ensures q != p
  {
    if p == Player then Bot else Player
  }

  predicate IsGrid(g: seq<seq<Cell>>) {
    |g| == ROW_COUNT && forall r :: 0 <= r < |g| ==> |g[r]| == COLUMN_COUNT
  }

  /** A board is indexed `b[row][col]`; row 0 is the bottom row. */
  type Board = g: seq<seq<Cell>> | IsGrid(g)
    witness seq(6, _ => seq(7, _ => Empty))

  predicate OnBoard(row: int, col: int) {
    0 <= row < ROW_COUNT && 0 <= col < COLUMN_COUNT
  }

  /** The number of occurrences of `x` in `s` (Python's `list.count`). */
  function Count(s: seq<Cell>, x: Cell): (n: nat)
    ensures n <= |s|
  {
    if s == [] then 0 else (if s[0] == x then 1 else 0) + Count(s[1..], x)
  }

  /** The cells of column `col`, bottom to top. */
  function Column(b: Board, col: int): (s: seq<Cell>)
    requires 0 <= col < COLUMN_COUNT
    ensures |s| == ROW_COUNT
    ensures forall r :: 0 <= r < ROW_COUNT ==> s[r] == b[r][col]
  {
    seq(ROW_COUNT, r requires 0 <= r < ROW_COUNT => b[r][col])
  }

  /** An empty board. */
  function CreateBoard(): (b: Board)
    ensures forall r, c :: OnBoard(r, c) ==> b[r][c] == Empty
  {
    seq(ROW_COUNT, _ => seq(COLUMN_COUNT, _ => Empty))
  }

  /**
   The gravity invariant: no piece floats above an empty cell, so every cell
   below a piece holds a piece. Every board built from the empty board by
   dropping pieces keeps it.
   */
  ghost predicate Gravity(b: Board) {
    forall c, lo, hi :: 0 <= c < COLUMN_COUNT && 0 <= lo <= hi < ROW_COUNT && b[hi][c] != Empty ==> b[lo][c] != Empty
  }

  /** A column is playable when its top cell is empty. */
  predicate IsValid(b: Board, col: int)
    requires 0 <= col < COLUMN_COUNT
  {
    b[ROW_COUNT - 1][col] == Empty
  }

  /** No column is playable. */
  ghost predicate Full(b: Board) {
    forall c :: 0 <= c < COLUMN_COUNT ==> !IsValid(b, c)
  }

  /** The playable columns among `start .. COLUMN_COUNT - 1`, ascending. */
  function ValidFrom(b: Board, start: int): (cols: seq<int>)
    requires 0 <= start <= COLUMN_COUNT
    decreases COLUMN_COUNT - start
    ensures forall i :: 0 <= i < |cols| ==> start <= cols[i] < COLUMN_COUNT && IsValid(b, cols[i])
    ensures forall c :: start <= c < COLUMN_COUNT && IsValid(b, c) ==> c in cols
    ensures forall i, j :: 0 <= i < j < |cols| ==> cols[i] < cols[j]
  {
    if start == COLUMN_COUNT then []
    else if IsValid(b, start) then [start] + ValidFrom(b, start + 1)
    else ValidFrom(b, start + 1)
  }

  /** The playable columns, in strictly ascending order. */
  function ValidLocations(b: Board): (cols: seq<int>)
    ensures forall i :: 0 <= i < |cols| ==> 0 <= cols[i] < COLUMN_COUNT && IsValid(b, cols[i])
    ensures forall c :: 0 <= c < COLUMN_COUNT && IsValid(b, c) ==> c in cols
    ensures forall i, j :: 0 <= i < j < |cols| ==> cols[i] < cols[j]
    ensures cols == [] <==> Full(b)
  {
    ValidFrom(b, 0)
  }

  /** The lowest empty row of `col` at or above `row`, or None. */
  function OpenRowFrom(b: Board, col: int, row: int): (r: Option<int>)
    requires 0 <= col < COLUMN_COUNT && 0 <= row <= ROW_COUNT
    decreases ROW_COUNT - row
    ensures r.Some? ==> row <= r.value < ROW_COUNT && b[r.value][col] == Empty
    ensures r.Some? ==> forall k :: row <= k < r.value ==> b[k][col] != Empty
    ensures r.None? ==> forall k :: row <= k < ROW_COUNT ==> b[k][col] != Empty
  {
    if row == ROW_COUNT then None
    else if b[row][col] == Empty then Some(row)
    else OpenRowFrom(b, col, row + 1)
  }

  /**
   The lowest empty row of `col`, scanning upwards from row 0; None when the
   column has no empty cell (`get_next_open_row` falls off its loop and returns None).
   */
  function NextOpenRow(b: Board, col: int): (r: Option<int>)
    requires 0 <= col < COLUMN_COUNT
    ensures r.Some? ==> 0 <= r.value < ROW_COUNT && b[r.value][col] == Empty
    ensures r.Some? ==> forall k :: 0 <= k < r.value ==> b[k][col] != Empty
    ensures r.None? <==> forall k :: 0 <= k < ROW_COUNT ==> b[k][col] != Empty
    ensures IsValid(b, col) ==> r.Some?
  {
    OpenRowFrom(b, col, 0)
  }

  /** Put piece `p` at `b[row][col]`; no validity check is made here. */
  function DropPiece(b: Board, row: int, col: int, p: Piece): (b': Board)
    requires OnBoard(row, col)
    ensures b'[row][col] == p
    ensures forall r, c :: OnBoard(r, c) && (r != row || c != col) ==> b'[r][c] == b[r][c]
  {
    b[row := b[row][col := p]]
  }

  /**
   A move: drop `p` into the next open row of a playable column, as the search
   and the game loop do.
   */
  function Play(b: Board, col: int, p: Piece): (b': Board)
    requires 0 <= col < COLUMN_COUNT && IsValid(b, col)
    ensures var row := NextOpenRow(b, col).value;
      && b'[row][col] == p
      && (forall r, c :: OnBoard(r, c) && (r != row || c != col) ==> b'[r][c] == b[r][c])
  {
    DropPiece(b, NextOpenRow(b, col).value, col, p)
  }

  // ---------------------------------------------------------------------------
  // Gravity

  /** With every column playable, the columns from `start` on are all listed, in order. */
  lemma {:induction false} OpenColumnsFrom(b: Board, start: int)
    requires 0 <= start <= COLUMN_COUNT
    requires forall c :: 0 <= c < COLUMN_COUNT ==> IsValid(b, c)
    ensures |ValidFrom(b, start)| == COLUMN_COUNT - start
    ensures forall i :: 0 <= i < COLUMN_COUNT - start ==> ValidFrom(b, start)[i] == start + i
    decreases COLUMN_COUNT - start
  {
    if start < COLUMN_COUNT {
      OpenColumnsFrom(b, start + 1);
      var rest := ValidFrom(b, start + 1);
      assert IsValid(b, start);
      assert ValidFrom(b, start) == [start] + rest;
    }
  }

  /** The empty board obeys gravity. */
  lemma EmptyBoardGravity()
    ensures Gravity(CreateBoard())
  {
  }

  /** Every column of the empty board is playable: the search starts from all seven, in ascending order. */
  lemma CreateBoardIsOpen()
    ensures |ValidLocations(CreateBoard())| == COLUMN_COUNT
    ensures forall i :: 0 <= i < COLUMN_COUNT ==> ValidLocations(CreateBoard())[i] == i
  {
    var b := CreateBoard();
    forall c | 0 <= c < COLUMN_COUNT
      ensures IsValid(b, c)
    {
      assert b[ROW_COUNT - 1][c] == Empty;
    }
    OpenColumnsFrom(b, 0);
  }

  /**
   On a gravity board a column is playable exactly when it has an open row,
   and then every cell from that row up is empty.
   */
  lemma ValidIffOpenRow(b: Board, col: int)
    requires Gravity(b) && 0 <= col < COLUMN_COUNT
    ensures IsValid(b, col) <==> NextOpenRow(b, col).Some?
    ensures NextOpenRow(b, col).Some? ==>
      forall k :: NextOpenRow(b, col).value <= k < ROW_COUNT ==> b[k][col] == Empty
  {
    var r := NextOpenRow(b, col);
    if r.Some? {
      assert b[r.value][col] == Empty;
    }
  }

  /** On a gravity board no column is playable exactly when every cell holds a piece. */
  lemma FullIffNoEmptyCell(b: Board)
    requires Gravity(b)
    ensures ValidLocations(b) == [] <==> forall r, c :: OnBoard(r, c) ==> b[r][c] != Empty
  {
    if ValidLocations(b) == [] {
      forall r, c | OnBoard(r, c)
        ensures b[r][c] != Empty
      {
        assert !IsValid(b, c);
      }
    }
  }

  /** Dropping into the next open row of a playable column keeps the gravity invariant. */
  lemma PlayKeepsGravity(b: Board, col: int, p: Piece)
    requires Gravity(b) && 0 <= col < COLUMN_COUNT && IsValid(b, col)
    ensures Gravity(Play(b, col, p))
  {
    var row := NextOpenRow(b, col).value;
    ValidIffOpenRow(b, col);
  }

}
