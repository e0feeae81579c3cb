/**
 The static evaluator: a centre-column bonus plus a score for every window
 of four cells along a row, a column or a diagonal.
 */
module Heuristic {

  import opened Board
  import opened Lines

  /** The highest and lowest scores the evaluator can give a board. */
  const MAX_POSITION_SCORE: int := 3 * ROW_COUNT + 100 * WINDOW_COUNT
  const MIN_POSITION_SCORE: int := -4 * WINDOW_COUNT

  /** Every cell is empty, a player piece or a bot piece. */
  lemma {:induction false} CountSplit(w: seq<Cell>)
    ensures Count(w, Empty) + Count(w, Player) + Count(w, Bot) == |w|
  {
    if w != [] {
      CountSplit(w[1..]);
    }
  }

  /** `Count` is the multiplicity of the multiset of cells. */
  lemma {:induction false} CountIsMultiplicity(w: seq<Cell>, x: Cell)
    ensures Count(w, x) == multiset(w)[x]
  {
    if w != [] {
      CountIsMultiplicity(w[1..], x);
      assert w == [w[0]] + w[1..];
    }
  }

  /**
   The score of one window for `p`: 100 for four of `p`, else 5 for three of
   `p` and an empty cell, else 2 for two of `p` and two empty cells; minus 4
   when the opponent has three and an empty cell.
   */
  function EvaluateWindow(w: seq<Cell>, p: Piece): (s: int)
    requires |w| == WINDOW_LENGTH
    ensures s in {-4, 0, 2, 5, 100}
    ensures s == 100 <==> Count(w, p) == 4
    ensures s == 5 <==> Count(w, p) == 3 && Count(w, Empty) == 1
    ensures s == 2 <==> Count(w, p) == 2 && Count(w, Empty) == 2
    ensures s == -4 <==> Count(w, Opponent(p)) == 3 && Count(w, Empty) == 1
  {
    CountSplit(w);
    var own, opp, empty := Count(w, p), Count(w, Opponent(p)), Count(w, Empty);
    var attack :=
      if own == 4 then 100
      else if own == 3 && empty == 1 then 5
      else if own == 2 && empty == 2 then 2
      else 0;
    var defence := if opp == 3 && empty == 1 then -4 else 0;
    attack + defence
  }

  /** A window's score depends only on how many cells of each kind it holds, not their order. */
  lemma EvaluateWindowIgnoresOrder(w1: seq<Cell>, w2: seq<Cell>, p: Piece)
    requires |w1| == WINDOW_LENGTH && multiset(w1) == multiset(w2)
    ensures |w2| == WINDOW_LENGTH
    ensures EvaluateWindow(w1, p) == EvaluateWindow(w2, p)
  {
    assert |w2| == |multiset(w2)| == |multiset(w1)| == |w1|;
    forall x: Cell
      ensures Count(w1, x) == Count(w2, x)
    {
      CountIsMultiplicity(w1, x);
      CountIsMultiplicity(w2, x);
    }
  }

  /**
   The evaluator is not symmetric: a window costs `p` 4 exactly when it earns
   the opponent 5 (an open three), and a window the opponent has completed
   costs `p` nothing.
   */
  lemma EvaluateWindowAsymmetry(w: seq<Cell>, p: Piece)
    requires |w| == WINDOW_LENGTH
    ensures EvaluateWindow(w, p) == -4 <==> EvaluateWindow(w, Opponent(p)) == 5
    ensures Count(w, Opponent(p)) == 4 ==> EvaluateWindow(w, p) == 0
  {
    CountSplit(w);
  }

  /** The total window score of lines `ls` for `p`. */
  function WindowsScore(b: Board, ls: seq<Line>, p: Piece): (s: int)
    requires forall l :: l in ls ==> Fits(l)
    ensures -4 * |ls| <= s <= 100 * |ls|
  {
    if ls == [] then 0
    else EvaluateWindow(Window(b, ls[0]), p) + WindowsScore(b, ls[1..], p)
  }

  /**
   The heuristic value of board `b` for piece `p`: three per `p` in the
   centre column plus the scores of all 69 windows of four.
   */
  function ScorePosition(b: Board, p: Piece): (s: int)
    ensures MIN_POSITION_SCORE <= s <= MAX_POSITION_SCORE
  {
    AllLinesExact();
    3 * Count(Column(b, COLUMN_COUNT / 2), p) + WindowsScore(b, AllLines(), p)
  }

  lemma {:induction false} CountMissing(s: seq<Cell>, x: Cell)
    requires forall i :: 0 <= i < |s| ==> s[i] != x
    ensures Count(s, x) == 0
  {
    if s != [] {
      CountMissing(s[1..], x);
    }
  }

  lemma {:induction false} WindowsScoreEmptyBoard(ls: seq<Line>, p: Piece)
    requires forall l :: l in ls ==> Fits(l)
    ensures WindowsScore(CreateBoard(), ls, p) == 0
  {
    if ls != [] {
      var w := Window(CreateBoard(), ls[0]);
      CountMissing(w, p);
      CountMissing(w, Opponent(p));
      WindowsScoreEmptyBoard(ls[1..], p);
    }
  }

  /** The empty board scores 0 for either piece. */
  lemma EmptyBoardScoresZero(p: Piece)
    ensures ScorePosition(CreateBoard(), p) == 0
  {
    var b := CreateBoard();
    var centre := Column(b, COLUMN_COUNT / 2);
    assert forall i :: 0 <= i < |centre| ==> centre[i] == Empty;
    CountMissing(centre, p);
    AllLinesExact();
    WindowsScoreEmptyBoard(AllLines(), p);
  }

}
