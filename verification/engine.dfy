/**
 The search as the game calls it: from the root window (minus infinity,
 plus infinity). These corollaries combine the equality of pruned and
 unpruned search with the first-best choice of the unpruned loop.
 */
module Engine {

  import opened Options
  import opened Lines
  import opened Board
  import opened Win
  import opened ExtInt
  import opened Search
  import opened Unpruned
  import opened Pruning

  /** The bot's or the player's move as the game asks for it. */
  function RootSearch(b: Board, depth: nat, maximising: bool): SearchResult {
    Minimax(b, depth, NegInf, PosInf, maximising)
  }

  /**
   At depth >= 1 on a board still in play, the root search chooses a playable
   column whose child attains the returned score, no playable column is
   better for the side to move, and every playable column left of it is
   strictly worse: the first optimal column in ascending order.
   */
  lemma RootChoosesFirstBest(b: Board, depth: nat, maximising: bool)
    requires depth != 0 && !IsTerminal(b)
    ensures var r := RootSearch(b, depth, maximising);
      && r.column.Some? && r.column.value in ValidLocations(b)
      && r.score == ChildValue(b, depth - 1, r.column.value, maximising)
      && (forall c :: c in ValidLocations(b) ==> AtLeastAsGood(maximising, Fin(r.score), Fin(ChildValue(b, depth - 1, c, maximising))))
      && (forall c :: c in ValidLocations(b) && c < r.column.value ==> Improves(maximising, Fin(r.score), Fin(ChildValue(b, depth - 1, c, maximising))))
  {
    PruningPreservesResult(b, depth, maximising);
    PlainMinimaxPicksFirstBest(b, depth, maximising);
  }

  /** A board where nobody has won and some column is playable is still in play. */
  lemma NotTerminalWithOpenColumn(b: Board, col: int)
    requires NoWinner(b) && 0 <= col < COLUMN_COUNT && IsValid(b, col)
    ensures !IsTerminal(b)
  {
    assert col in ValidLocations(b);
  }

  /** While nobody has won, the root score is at least as good, for the side to move, as the value of any playable column. */
  lemma RootAtLeastChild(b: Board, depth: nat, maximising: bool, col: int)
    requires depth != 0 && NoWinner(b) && 0 <= col < COLUMN_COUNT && IsValid(b, col)
    ensures AtLeastAsGood(maximising, Fin(RootSearch(b, depth, maximising).score), Fin(ChildValue(b, depth - 1, col, maximising)))
  {
    NotTerminalWithOpenColumn(b, col);
    RootChoosesFirstBest(b, depth, maximising);
    assert col in ValidLocations(b);
  }

  /** While nobody has won, every playable column left of the root's choice is strictly worse for the side to move. */
  lemma RootBeatsLeft(b: Board, depth: nat, maximising: bool, col: int)
    requires depth != 0 && NoWinner(b) && 0 <= col < COLUMN_COUNT && IsValid(b, col)
    ensures var c := RootSearch(b, depth, maximising).column;
      c.Some? && col < c.value ==> Improves(maximising, Fin(RootSearch(b, depth, maximising).score), Fin(ChildValue(b, depth - 1, col, maximising)))
  {
    NotTerminalWithOpenColumn(b, col);
    RootChoosesFirstBest(b, depth, maximising);
    assert col in ValidLocations(b);
  }

  /** Dropping a bot piece into `col` is legal and completes four in a row. */
  ghost predicate WinningColumn(b: Board, col: int) {
    0 <= col < COLUMN_COUNT && IsValid(b, col) && HasFour(Play(b, col, Bot), Bot)
  }

  /**
   A bot piece that completes four makes a terminal child, so the unpruned
   value of that column is a win whatever depth the child is searched to.
   */
  lemma WinningChildValue(b: Board, depth: nat, col: int)
    requires depth != 0 && WinningColumn(b, col)
    ensures ChildValue(b, depth - 1, col, true) == WIN_SCORE
  {
    var child := Play(b, col, Bot);
    TerminalIff(child);
    assert Mover(true) == Bot;
    assert PlainMinimax(child, depth - 1, false) == SearchResult(None, LeafScore(child));
  }

  /**
   When nobody has won yet and a playable column lets the bot complete four,
   the bot's search at any depth >= 1 scores the position as a win.
   */
  lemma BotTakesImmediateWin(b: Board, depth: nat, col: int)
    requires depth != 0 && NoWinner(b) && WinningColumn(b, col)
    ensures RootSearch(b, depth, true).score == WIN_SCORE
  {
    RootAtLeastChild(b, depth, true, col);
    WinningChildValue(b, depth, col);
  }

  /** At depth 0 the child's value is its leaf score, which is a win exactly when the bot has four. */
  lemma LeafChildWinIff(b: Board, col: int)
    requires 0 <= col < COLUMN_COUNT && IsValid(b, col)
    ensures ChildValue(b, 0, col, true) == WIN_SCORE <==> WinningColumn(b, col)
  {
    var child := Play(b, col, Bot);
    assert Mover(true) == Bot;
    assert PlainMinimax(child, 0, false) == SearchResult(None, LeafScore(child));
  }

  /**
   At depth 1, when nobody has won yet, the bot plays the lowest-numbered
   column that completes four, whenever one exists.
   */
  lemma DepthOneTakesFirstWin(b: Board, col: int)
    requires NoWinner(b) && WinningColumn(b, col)
    ensures var c := RootSearch(b, 1, true).column;
      && c.Some? && WinningColumn(b, c.value)
      && forall k :: 0 <= k < c.value ==> !WinningColumn(b, k)
  {
    NotTerminalWithOpenColumn(b, col);
    BotTakesImmediateWin(b, 1, col);
    DepthOneChoiceWins(b);
    forall k | 0 <= k < RootSearch(b, 1, true).column.value
      ensures !WinningColumn(b, k)
    {
      if IsValid(b, k) {
        RootBeatsLeft(b, 1, true, k);
        LeafChildWinIff(b, k);
      }
    }
  }

  /** At depth 1 the chosen column's value is the root score, so it wins exactly when the root score is a win. */
  lemma DepthOneChoiceWins(b: Board)
    requires !IsTerminal(b)
    ensures var r := RootSearch(b, 1, true);
      r.column.Some? && (r.score == WIN_SCORE <==> WinningColumn(b, r.column.value))
  {
    RootChoosesFirstBest(b, 1, true);
    var c := RootSearch(b, 1, true).column.value;
    LeafChildWinIff(b, c);
  }

  /** A player drop cannot give the bot four: any bot line on the new board was already on the old one. */
  lemma PlayerDropKeepsBotLines(b: Board, col: int)
    requires 0 <= col < COLUMN_COUNT && IsValid(b, col)
    ensures HasFour(Play(b, col, Player), Bot) ==> HasFour(b, Bot)
  {
    var b' := Play(b, col, Player);
    if HasFour(b', Bot) {
      var l: Line :| Fits(l) && forall i :: 0 <= i < WINDOW_LENGTH ==> CellAt(b', l, i) == Bot;
      forall i | 0 <= i < WINDOW_LENGTH
        ensures CellAt(b, l, i) == Bot
      {
        assert CellAt(b', l, i) == Bot;
      }
    }
  }

  /**
   A bot drop that does not complete four is worth less than a win when the
   child is searched to depth 1: the player's reply cannot hand the bot four.
   */
  lemma NonWinningChildBelowWin(b: Board, col: int)
    requires 0 <= col < COLUMN_COUNT && IsValid(b, col) && !HasFour(Play(b, col, Bot), Bot)
    ensures ChildValue(b, 1, col, true) < WIN_SCORE
  {
    var child := Play(b, col, Bot);
    assert Mover(true) == Bot;
    if IsTerminal(child) {
      assert PlainMinimax(child, 1, false) == SearchResult(None, LeafScore(child));
    } else {
      PlainMinimaxPicksFirstBest(child, 1, false);
      var reply := PlainMinimax(child, 1, false).column.value;
      PlayerDropKeepsBotLines(child, reply);
      var grandchild := Play(child, reply, Player);
      assert Mover(false) == Player;
      assert PlainMinimax(grandchild, 0, true) == SearchResult(None, LeafScore(grandchild));
    }
  }

  /** At depth 2 the chosen column's value is the root score, so it wins at once exactly when the root score is a win. */
  lemma DepthTwoChoiceWins(b: Board)
    requires !IsTerminal(b)
    ensures var r := RootSearch(b, 2, true);
      r.column.Some? && (r.score == WIN_SCORE <==> WinningColumn(b, r.column.value))
  {
    RootChoosesFirstBest(b, 2, true);
    var c := RootSearch(b, 2, true).column.value;
    if WinningColumn(b, c) {
      WinningChildValue(b, 2, c);
    } else {
      NonWinningChildBelowWin(b, c);
    }
  }

  /**
   At depth 2, when nobody has won yet, the bot still plays the lowest-numbered
   column that completes four: every other column leaves the bot without four
   after any reply, so it scores below a win.
   */
  lemma DepthTwoTakesFirstWin(b: Board, col: int)
    requires NoWinner(b) && WinningColumn(b, col)
    ensures var c := RootSearch(b, 2, true).column;
      && c.Some? && WinningColumn(b, c.value)
      && forall k :: 0 <= k < c.value ==> !WinningColumn(b, k)
  {
    NotTerminalWithOpenColumn(b, col);
    BotTakesImmediateWin(b, 2, col);
    DepthTwoChoiceWins(b);
    forall k | 0 <= k < RootSearch(b, 2, true).column.value
      ensures !WinningColumn(b, k)
    {
      if IsValid(b, k) && WinningColumn(b, k) {
        RootBeatsLeft(b, 2, true, k);
        WinningChildValue(b, 2, k);
      }
    }
  }

}
