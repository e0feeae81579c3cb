/**
 The search engine: depth-limited minimax with alpha-beta pruning. The bot
 maximises and the player minimises; leaves are scored from the bot's side.
 */
module Search {

  import opened Options
  import opened Board
  import opened Win
  import opened Heuristic
  import opened ExtInt

  /** The magnitude of a won or lost leaf. */
  const WIN_SCORE: int := 9999999

  /** The chosen column (None at a leaf) and the score of the position. */
  datatype SearchResult = SearchResult(column: Option<int>, score: int)

  /** The running best of a search loop: the column chosen so far and its value. */
  datatype Best = Best(column: Option<int>, value: ExtInt)

  /** The piece that moves at a maximising node is the bot's, at a minimising node the player's. */
  function Mover(maximising: bool): Piece {
    if maximising then Bot else Player
  }

  /** The running best before any column is explored: minus or plus infinity. */
  function Initial(maximising: bool): ExtInt {
    if maximising then NegInf else PosInf
  }

  /** `s` strictly improves on `value` for the side to move. */
  predicate Improves(maximising: bool, s: ExtInt, value: ExtInt) {
    if maximising then Lt(value, s) else Lt(s, value)
  }

  /** `x` is at least as good as `y` for the side to move. */
  predicate AtLeastAsGood(maximising: bool, x: ExtInt, y: ExtInt) {
    if maximising then Le(y, x) else Le(x, y)
  }

  lemma NotImprovesMeansAtLeastAsGood(maximising: bool, x: ExtInt, y: ExtInt)
    ensures !Improves(maximising, x, y) <==> AtLeastAsGood(maximising, y, x)
  {
  }

  lemma AtLeastAsGoodTransitive(maximising: bool, x: ExtInt, y: ExtInt, z: ExtInt)
    requires AtLeastAsGood(maximising, x, y) && AtLeastAsGood(maximising, y, z)
    ensures AtLeastAsGood(maximising, x, z)
  {
  }

  lemma ImprovesThenAtLeast(maximising: bool, x: ExtInt, y: ExtInt, z: ExtInt)
    requires Improves(maximising, x, y) && AtLeastAsGood(maximising, y, z)
    ensures Improves(maximising, x, z)
  {
  }

  predicate ScoreInRange(s: int) {
    -WIN_SCORE <= s <= WIN_SCORE
  }

  predicate PlayableColumns(b: Board, cols: seq<int>) {
    forall i :: 0 <= i < |cols| ==> 0 <= cols[i] < COLUMN_COUNT && IsValid(b, cols[i])
  }

  /**
   The score of a position the search does not expand: a bot win, a player
   win, a full board, or else the heuristic from the bot's side, whichever
   side is to move.
   */
  function LeafScore(b: Board): (s: int)
    ensures ScoreInRange(s)
    ensures HasFour(b, Bot) ==> s == WIN_SCORE
    ensures !HasFour(b, Bot) && HasFour(b, Player) ==> s == -WIN_SCORE
    ensures !HasFour(b, Bot) && !HasFour(b, Player) && Full(b) ==> s == 0
    ensures !HasFour(b, Bot) && !HasFour(b, Player) && !Full(b) ==> s == ScorePosition(b, Bot)
    ensures !HasFour(b, Bot) ==> s < WIN_SCORE
  {
    WinningMoveIffFour(b, Bot);
    WinningMoveIffFour(b, Player);
    if IsTerminal(b) then
      if WinningMove(b, Bot) then WIN_SCORE
      else if WinningMove(b, Player) then -WIN_SCORE
      else 0
    else
      ScorePosition(b, Bot)
  }

  /**
   Minimax with alpha-beta pruning. At depth 0 or on a terminal board the
   column is None and the score is the leaf score; otherwise the columns are
   explored in ascending order on copies of the board.
   */
  function Minimax(b: Board, depth: nat, alpha: ExtInt, beta: ExtInt, maximising: bool): (r: SearchResult)
    decreases depth, 1, 0
    ensures r.column.None? <==> depth == 0 || IsTerminal(b)
    ensures r.column.Some? ==> r.column.value in ValidLocations(b)
    ensures ScoreInRange(r.score)
  {
    if depth == 0 || IsTerminal(b) then
      SearchResult(None, LeafScore(b))
    else
      var best := SearchLoop(b, depth - 1, ValidLocations(b), alpha, beta, maximising, Best(None, Initial(maximising)));
      SearchResult(best.column, best.value.n)
  }

  /**
   The pruned score of playing `col`: the board after the mover's piece,
   searched to depth `d` by the other side.
   */
  function ChildScore(b: Board, d: nat, col: int, alpha: ExtInt, beta: ExtInt, maximising: bool): (s: int)
    requires 0 <= col < COLUMN_COUNT && IsValid(b, col)
    decreases d, 2, 0
    ensures ScoreInRange(s)
  {
    Minimax(Play(b, col, Mover(maximising)), d, alpha, beta, !maximising).score
  }

  /**
   The loop over the playable columns `cols` of a node searched to depth
   `d + 1`: play the mover's piece in the next column, score the child to
   depth `d`, keep the child when it strictly improves on the running best,
   tighten alpha (maximising) or beta (minimising) and stop once
   alpha >= beta.
   */
  function SearchLoop(b: Board, d: nat, cols: seq<int>, alpha: ExtInt, beta: ExtInt, maximising: bool, best: Best): (r: Best)
    requires PlayableColumns(b, cols)
    decreases d, 3, |cols|
    ensures r.column == best.column || (r.column.Some? && r.column.value in cols)
    ensures r.value == best.value || (r.value.Fin? && ScoreInRange(r.value.n))
    ensures cols != [] && best.value == Initial(maximising) ==> r.column.Some? && r.column.value in cols && r.value.Fin?
  {
    if cols == [] then best
    else
      var col := cols[0];
      var score := ChildScore(b, d, col, alpha, beta, maximising);
      var best' := if Improves(maximising, Fin(score), best.value) then Best(Some(col), Fin(score)) else best;
      var alpha' := if maximising then Max(alpha, best'.value) else alpha;
      var beta' := if maximising then beta else Min(beta, best'.value);
      if Le(beta', alpha') then best'
      else SearchLoop(b, d, cols[1..], alpha', beta', maximising, best')
  }

  /** One node of the pruned search, unfolded into its loop. */
  lemma MinimaxUnfold(b: Board, depth: nat, alpha: ExtInt, beta: ExtInt, maximising: bool)
    requires depth != 0 && !IsTerminal(b)
    ensures var r := SearchLoop(b, depth - 1, ValidLocations(b), alpha, beta, maximising, Best(None, Initial(maximising)));
      r.value.Fin? && Minimax(b, depth, alpha, beta, maximising) == SearchResult(r.column, r.value.n)
  {
  }

  /** One iteration of the pruned loop, with the child's score named. */
  lemma SearchLoopUnfold(b: Board, d: nat, cols: seq<int>, alpha: ExtInt, beta: ExtInt, maximising: bool, best: Best)
    requires PlayableColumns(b, cols) && cols != []
    ensures var v := Fin(ChildScore(b, d, cols[0], alpha, beta, maximising));
      var best' := if Improves(maximising, v, best.value) then Best(Some(cols[0]), v) else best;
      var alpha' := if maximising then Max(alpha, best'.value) else alpha;
      var beta' := if maximising then beta else Min(beta, best'.value);
      SearchLoop(b, d, cols, alpha, beta, maximising, best) ==
        if Le(beta', alpha') then best' else SearchLoop(b, d, cols[1..], alpha', beta', maximising, best')
  {
  }

}
