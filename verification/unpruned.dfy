/**
 The reference the pruned search is measured against: the same minimax
 without alpha and beta, exploring every playable column.
 */
module Unpruned {

  import opened Options
  import opened Board
  import opened Win
  import opened ExtInt
  import opened Search

  /** Minimax without pruning: the game-tree value to the given depth. */
  function PlainMinimax(b: Board, depth: nat, maximising: bool): (r: SearchResult)
    decreases depth, 1, 0
    ensures r.column.None? <==> depth == 0 || IsTerminal(b)
    ensures r.column.Some? ==> r.column.value in ValidLocations(b)
    ensures ScoreInRange(r.score)
  {
    if depth == 0 || IsTerminal(b) then
      SearchResult(None, LeafScore(b))
    else
      var best := PlainLoop(b, depth - 1, ValidLocations(b), maximising, Best(None, Initial(maximising)));
      SearchResult(best.column, best.value.n)
  }

  /** The loop of `PlainMinimax`: every column of `cols` is explored, each child to depth `d`. */
  function PlainLoop(b: Board, d: nat, cols: seq<int>, maximising: bool, best: Best): (r: Best)
    requires PlayableColumns(b, cols)
    decreases d, 3, |cols|
    ensures r.column == best.column || (r.column.Some? && r.column.value in cols)
    ensures r.value == best.value || (r.value.Fin? && ScoreInRange(r.value.n))
    ensures cols != [] && best.value == Initial(maximising) ==> r.column.Some? && r.column.value in cols && r.value.Fin?
  {
    if cols == [] then best
    else
      var col := cols[0];
      var score := ChildValue(b, d, col, maximising);
      var best' := if Improves(maximising, Fin(score), best.value) then Best(Some(col), Fin(score)) else best;
      PlainLoop(b, d, cols[1..], maximising, best')
  }

  /** The unpruned value of playing `col` for the side to move. */
  function ChildValue(b: Board, d: nat, col: int, maximising: bool): (s: int)
    requires 0 <= col < COLUMN_COUNT && IsValid(b, col)
    decreases d, 2, 0
    ensures ScoreInRange(s)
  {
    PlainMinimax(Play(b, col, Mover(maximising)), d, !maximising).score
  }

  /**
   `r` names a column of `cols` whose child attains `r`'s value and which is
   strictly better than every column of `cols` to its left.
   */
  predicate IsFirstBest(b: Board, d: nat, cols: seq<int>, maximising: bool, r: Best)
    requires PlayableColumns(b, cols)
  {
    && r.column.Some? && r.column.value in cols
    && r.value == Fin(ChildValue(b, d, r.column.value, maximising))
    && forall c :: c in cols && c < r.column.value ==> Improves(maximising, r.value, Fin(ChildValue(b, d, c, maximising)))
  }

  /** One node of the unpruned search, unfolded into its loop. */
  lemma PlainMinimaxUnfold(b: Board, depth: nat, maximising: bool)
    requires depth != 0 && !IsTerminal(b)
    ensures var r := PlainLoop(b, depth - 1, ValidLocations(b), maximising, Best(None, Initial(maximising)));
      r.value.Fin? && PlainMinimax(b, depth, maximising) == SearchResult(r.column, r.value.n)
  {
  }

  /** One iteration of the unpruned loop, with the child's value named. */
  lemma PlainLoopUnfold(b: Board, d: nat, cols: seq<int>, maximising: bool, best: Best)
    requires PlayableColumns(b, cols) && cols != []
    ensures var v := Fin(ChildValue(b, d, cols[0], maximising));
      var best' := if Improves(maximising, v, best.value) then Best(Some(cols[0]), v) else best;
      PlainLoop(b, d, cols, maximising, best) == PlainLoop(b, d, cols[1..], maximising, best')
  {
  }

  /** The unpruned loop never ends worse than it started. */
  lemma {:induction false} PlainLoopAtLeastStart(b: Board, d: nat, cols: seq<int>, maximising: bool, best: Best)
    requires PlayableColumns(b, cols)
    decreases |cols|
    ensures AtLeastAsGood(maximising, PlainLoop(b, d, cols, maximising, best).value, best.value)
  {
    if cols != [] {
      var v := Fin(ChildValue(b, d, cols[0], maximising));
      var best' := if Improves(maximising, v, best.value) then Best(Some(cols[0]), v) else best;
      PlainLoopUnfold(b, d, cols, maximising, best);
      PlainLoopAtLeastStart(b, d, cols[1..], maximising, best');
      NotImprovesMeansAtLeastAsGood(maximising, v, best.value);
      AtLeastAsGoodTransitive(maximising, PlainLoop(b, d, cols[1..], maximising, best').value, best'.value, best.value);
    }
  }

  /** The unpruned loop ends with a value at least as good as every child it explores. */
  lemma {:induction false} PlainLoopBeatsChildren(b: Board, d: nat, cols: seq<int>, maximising: bool, best: Best)
    requires PlayableColumns(b, cols)
    decreases |cols|
    ensures forall c :: c in cols ==>
      AtLeastAsGood(maximising, PlainLoop(b, d, cols, maximising, best).value, Fin(ChildValue(b, d, c, maximising)))
  {
    if cols != [] {
      var col, rest := cols[0], cols[1..];
      var v := Fin(ChildValue(b, d, col, maximising));
      var best' := if Improves(maximising, v, best.value) then Best(Some(col), v) else best;
      var r := PlainLoop(b, d, rest, maximising, best');
      PlainLoopUnfold(b, d, cols, maximising, best);
      PlainLoopBeatsChildren(b, d, rest, maximising, best');
      PlainLoopAtLeastStart(b, d, rest, maximising, best');
      NotImprovesMeansAtLeastAsGood(maximising, v, best.value);
      AtLeastAsGoodTransitive(maximising, r.value, best'.value, v);
      forall c | c in cols
        ensures AtLeastAsGood(maximising, r.value, Fin(ChildValue(b, d, c, maximising)))
      {
        if c != col {
          assert c in rest;
        }
      }
    }
  }

  /**
   Over ascending columns, the unpruned loop either keeps its start or picks
   the first best column of `cols`, strictly improving on the start.
   */
  lemma {:induction false} PlainLoopPicksFirstBest(b: Board, d: nat, cols: seq<int>, maximising: bool, best: Best)
    requires PlayableColumns(b, cols)
    requires forall i, j :: 0 <= i < j < |cols| ==> cols[i] < cols[j]
    decreases |cols|
    ensures var r := PlainLoop(b, d, cols, maximising, best);
      r == best || (IsFirstBest(b, d, cols, maximising, r) && Improves(maximising, r.value, best.value))
  {
    if cols != [] {
      var col, rest := cols[0], cols[1..];
      var v := Fin(ChildValue(b, d, col, maximising));
      var improved := Improves(maximising, v, best.value);
      var best' := if improved then Best(Some(col), v) else best;
      var r := PlainLoop(b, d, rest, maximising, best');
      PlainLoopUnfold(b, d, cols, maximising, best);
      PlainLoopPicksFirstBest(b, d, rest, maximising, best');
      if r == best' {
        if improved {
          assert IsFirstBest(b, d, cols, maximising, r);
        }
      } else {
        FirstBestStep(b, d, cols, maximising, best, r);
      }
    }
  }

  /**
   A first best column of `cols[1..]` that beats the running best after
   `cols[0]` is explored is a first best column of `cols`, and beats the
   running best before it.
   */
  lemma FirstBestStep(b: Board, d: nat, cols: seq<int>, maximising: bool, best: Best, r: Best)
    requires PlayableColumns(b, cols) && cols != []
    requires forall i, j :: 0 <= i < j < |cols| ==> cols[i] < cols[j]
    requires var v := Fin(ChildValue(b, d, cols[0], maximising));
      var best' := if Improves(maximising, v, best.value) then Best(Some(cols[0]), v) else best;
      IsFirstBest(b, d, cols[1..], maximising, r) && Improves(maximising, r.value, best'.value)
    ensures IsFirstBest(b, d, cols, maximising, r) && Improves(maximising, r.value, best.value)
  {
    var col, rest := cols[0], cols[1..];
    var v := Fin(ChildValue(b, d, col, maximising));
    var best' := if Improves(maximising, v, best.value) then Best(Some(col), v) else best;
    NotImprovesMeansAtLeastAsGood(maximising, v, best.value);
    ImprovesThenAtLeast(maximising, r.value, best'.value, best.value);
    ImprovesThenAtLeast(maximising, r.value, best'.value, v);
    forall c | c in cols && c < r.column.value
      ensures Improves(maximising, r.value, Fin(ChildValue(b, d, c, maximising)))
    {
      if c != col {
        assert c in rest;
      }
    }
  }

  /**
   On a non-terminal board with depth >= 1, unpruned minimax chooses a
   playable column whose child attains the score, no playable column is
   better, and every playable column left of it is strictly worse: the first
   optimal column in ascending order.
   */
  lemma PlainMinimaxPicksFirstBest(b: Board, depth: nat, maximising: bool)
    requires depth != 0 && !IsTerminal(b)
    ensures var r := PlainMinimax(b, depth, maximising);
      && r.column.Some? && r.column.value in ValidLocations(b)
      && r.score == ChildValue(b, depth - 1, r.column.value, maximising)
      && (forall c :: c in ValidLocations(b) ==> AtLeastAsGood(maximising, Fin(r.score), Fin(ChildValue(b, depth - 1, c, maximising))))
      && (forall c :: c in ValidLocations(b) && c < r.column.value ==> Improves(maximising, Fin(r.score), Fin(ChildValue(b, depth - 1, c, maximising))))
  {
    var cols := ValidLocations(b);
    var init := Best(None, Initial(maximising));
    PlainLoopPicksFirstBest(b, depth - 1, cols, maximising, init);
    PlainLoopBeatsChildren(b, depth - 1, cols, maximising, init);
    PlainMinimaxUnfold(b, depth, maximising);
  }

}
