/**
 Lines of four cells on the board. A line starts at (row, col) and runs in one
 of four directions; the evaluator scores the cells of each line as a window
 and the win check looks for a line held entirely by one piece.
 */
module Lines {

  import opened Board

  /**
   Horizontal runs rightwards, Vertical upwards, Ascending up and to the
   right, Descending down and to the right.
   */
  datatype Direction = Horizontal | Vertical | Ascending | Descending

  datatype Line = Line(row: int, col: int, dir: Direction)

  /** The row step between consecutive cells of a line in direction `d`. */
  function RowStep(d: Direction): int {
    match d
    case Horizontal => 0
    case Vertical => 1
    case Ascending => 1
    case Descending => -1
  }

  /** The column step between consecutive cells of a line in direction `d`. */
  function ColStep(d: Direction): int {
    if d == Vertical then 0 else 1
  }

  /**
   The row of the `i`-th cell of line `l`, that is `l.row + RowStep(l.dir) * i`
   written without a product so that the arithmetic stays linear.
   */
  function RowAt(l: Line, i: int): (r: int)
    ensures r == l.row + RowStep(l.dir) * i
  {
    match l.dir
    case Horizontal => l.row
    case Descending => l.row - i
    case _ => l.row + i
  }

  /** The column of the `i`-th cell of line `l`, likewise `l.col + ColStep(l.dir) * i`. */
  function ColAt(l: Line, i: int): (c: int)
    ensures c == l.col + ColStep(l.dir) * i
  {
    if l.dir == Vertical then l.col else l.col + i
  }

  /** Every cell of the line lies on the board. */
  predicate Fits(l: Line) {
    forall i :: 0 <= i < WINDOW_LENGTH ==> OnBoard(RowAt(l, i), ColAt(l, i))
  }

  function CellAt(b: Board, l: Line, i: int): Cell
    requires Fits(l) && 0 <= i < WINDOW_LENGTH
  {
    b[RowAt(l, i)][ColAt(l, i)]
  }

  /** The four cells of a line, in order from its start. */
  function Window(b: Board, l: Line): (w: seq<Cell>)
    requires Fits(l)
    ensures |w| == WINDOW_LENGTH
    ensures forall i :: 0 <= i < WINDOW_LENGTH ==> w[i] == CellAt(b, l, i)
  {
    [CellAt(b, l, 0), CellAt(b, l, 1), CellAt(b, l, 2), CellAt(b, l, 3)]
  }

  /** A horizontal window is the slice of its row that the evaluator takes. */
  lemma HorizontalWindowIsRowSlice(b: Board, r: int, c: int)
    requires 0 <= r < ROW_COUNT && 0 <= c <= COLUMN_COUNT - WINDOW_LENGTH
    ensures Fits(Line(r, c, Horizontal))
    ensures Window(b, Line(r, c, Horizontal)) == b[r][c..c + WINDOW_LENGTH]
  {
    var l := Line(r, c, Horizontal);
    assert forall i :: 0 <= i < WINDOW_LENGTH ==> RowAt(l, i) == r && ColAt(l, i) == c + i;
  }

  /** A vertical window is the slice of its column that the evaluator takes. */
  lemma VerticalWindowIsColumnSlice(b: Board, r: int, c: int)
    requires 0 <= r <= ROW_COUNT - WINDOW_LENGTH && 0 <= c < COLUMN_COUNT
    ensures Fits(Line(r, c, Vertical))
    ensures Window(b, Line(r, c, Vertical)) == Column(b, c)[r..r + WINDOW_LENGTH]
  {
    var l := Line(r, c, Vertical);
    assert forall i :: 0 <= i < WINDOW_LENGTH ==> RowAt(l, i) == r + i && ColAt(l, i) == c;
  }

  // ---------------------------------------------------------------------------
  // The windows the evaluator visits, in the order of its four loop nests

  /** Row by row, the starts in columns 0 .. 3 (24 lines). */
  function HorizontalLines(): seq<Line> {
    seq(24, k requires 0 <= k < 24 => Line(k / 4, k % 4, Horizontal))
  }

  /** Column by column, the starts in rows 0 .. 2 (21 lines). */
  function VerticalLines(): seq<Line> {
    seq(21, k requires 0 <= k < 21 => Line(k % 3, k / 3, Vertical))
  }

  /** Rows 0 .. 2 by columns 0 .. 3, running up and right (12 lines). */
  function AscendingLines(): seq<Line> {
    seq(12, k requires 0 <= k < 12 => Line(k / 4, k % 4, Ascending))
  }

  /** Rows 3 .. 5 by columns 0 .. 3, running down and right (12 lines). */
  function DescendingLines(): seq<Line> {
    seq(12, k requires 0 <= k < 12 => Line(k / 4 + 3, k % 4, Descending))
  }

  /** The number of lines of four that fit on the board. */
  const WINDOW_COUNT: int := 69

  function AllLines(): seq<Line> {
    HorizontalLines() + VerticalLines() + AscendingLines() + DescendingLines()
  }

  lemma HorizontalLinesExact()
    ensures |HorizontalLines()| == ROW_COUNT * (COLUMN_COUNT - 3)
    ensures forall l :: l in HorizontalLines() <==> l.dir == Horizontal && Fits(l)
    ensures forall i, j :: 0 <= i < j < |HorizontalLines()| ==> HorizontalLines()[i] != HorizontalLines()[j]
  {
    var ls := HorizontalLines();
    forall l: Line | l.dir == Horizontal && Fits(l)
      ensures l in ls
    {
      assert OnBoard(RowAt(l, 0), ColAt(l, 0)) && OnBoard(RowAt(l, 3), ColAt(l, 3));
      var k := l.row * 4 + l.col;
      assert ls[k] == l;
    }
  }

  lemma VerticalLinesExact()
    ensures |VerticalLines()| == COLUMN_COUNT * (ROW_COUNT - 3)
    ensures forall l :: l in VerticalLines() <==> l.dir == Vertical && Fits(l)
    ensures forall i, j :: 0 <= i < j < |VerticalLines()| ==> VerticalLines()[i] != VerticalLines()[j]
  {
    var ls := VerticalLines();
    forall l: Line | l.dir == Vertical && Fits(l)
      ensures l in ls
    {
      assert OnBoard(RowAt(l, 0), ColAt(l, 0)) && OnBoard(RowAt(l, 3), ColAt(l, 3));
      var k := l.col * 3 + l.row;
      assert ls[k] == l;
    }
  }

  lemma AscendingLinesExact()
    ensures |AscendingLines()| == (ROW_COUNT - 3) * (COLUMN_COUNT - 3)
    ensures forall l :: l in AscendingLines() <==> l.dir == Ascending && Fits(l)
    ensures forall i, j :: 0 <= i < j < |AscendingLines()| ==> AscendingLines()[i] != AscendingLines()[j]
  {
    var ls := AscendingLines();
    forall l: Line | l.dir == Ascending && Fits(l)
      ensures l in ls
    {
      assert OnBoard(RowAt(l, 0), ColAt(l, 0)) && OnBoard(RowAt(l, 3), ColAt(l, 3));
      var k := l.row * 4 + l.col;
      assert ls[k] == l;
    }
  }

  lemma DescendingLinesExact()
    ensures |DescendingLines()| == (ROW_COUNT - 3) * (COLUMN_COUNT - 3)
    ensures forall l :: l in DescendingLines() <==> l.dir == Descending && Fits(l)
    ensures forall i, j :: 0 <= i < j < |DescendingLines()| ==> DescendingLines()[i] != DescendingLines()[j]
  {
    var ls := DescendingLines();
    forall l: Line | l.dir == Descending && Fits(l)
      ensures l in ls
    {
      assert OnBoard(RowAt(l, 0), ColAt(l, 0)) && OnBoard(RowAt(l, 3), ColAt(l, 3));
      var k := (l.row - 3) * 4 + l.col;
      assert ls[k] == l;
    }
  }

  /**
   The evaluator's windows are exactly the lines of four that fit on the
   board, each visited once: WINDOW_COUNT in all.
   */
  lemma AllLinesExact()
    ensures |AllLines()| == WINDOW_COUNT
    ensures forall l :: l in AllLines() <==> Fits(l)
    ensures forall i, j :: 0 <= i < j < |AllLines()| ==> AllLines()[i] != AllLines()[j]
  {
    HorizontalLinesExact();
    VerticalLinesExact();
    AscendingLinesExact();
    DescendingLinesExact();
    var h, v, a, d := HorizontalLines(), VerticalLines(), AscendingLines(), DescendingLines();
    var all := AllLines();
    assert all == h + v + a + d;
    forall i, j | 0 <= i < j < |all|
      ensures all[i] != all[j]
    {
      // Lines of different families differ in direction.
      assert all[i] in all && all[j] in all;
    }
  }

}
