/**
 Alpha-beta pruning does not change the search's answer. At every node the
 pruned score relates to the unpruned one as fail-soft alpha-beta promises;
 at the root, where alpha and beta start at minus and plus infinity, the
 pruned search returns exactly the unpruned column and score.
 */
module Pruning {

  import opened Options
  import opened Board
  import opened Win
  import opened ExtInt
  import opened Search
  import opened Unpruned

  /**
   The fail-soft relation between a pruned value `v` searched with window
   (alpha, beta) and the true value `m`: a value at or below alpha is an
   upper bound, one at or above beta is a lower bound, and one strictly
   inside the window is exact.
   */
  predicate FailSoft(alpha: ExtInt, beta: ExtInt, v: ExtInt, m: ExtInt) {
    && (Le(v, alpha) ==> Le(m, v))
    && (Le(beta, v) ==> Le(v, m))
    && (Lt(alpha, v) && Lt(v, beta) ==> m == v)
  }

  /** Every node of the pruned search satisfies the fail-soft relation with the unpruned value. */
  lemma {:induction false} MinimaxFailSoft(b: Board, depth: nat, alpha: ExtInt, beta: ExtInt, maximising: bool)
    requires Lt(alpha, beta)
    decreases depth, 1, 0
    ensures FailSoft(alpha, beta, Fin(Minimax(b, depth, alpha, beta, maximising).score), Fin(PlainMinimax(b, depth, maximising).score))
  {
    if depth != 0 && !IsTerminal(b) {
      MinimaxUnfold(b, depth, alpha, beta, maximising);
      PlainMinimaxUnfold(b, depth, maximising);
      RootFailSoft(b, depth, alpha, beta, maximising);
    }
  }

  /** The loop of a node with `depth >= 1` satisfies the fail-soft relation, from the initial running best. */
  lemma {:induction false} RootFailSoft(b: Board, depth: nat, alpha: ExtInt, beta: ExtInt, maximising: bool)
    requires depth != 0 && Lt(alpha, beta)
    decreases depth, 0, 0
    ensures var cols, init := ValidLocations(b), Best(None, Initial(maximising));
      FailSoft(alpha, beta, SearchLoop(b, depth - 1, cols, alpha, beta, maximising, init).value, PlainLoop(b, depth - 1, cols, maximising, init).value)
  {
    var d: nat := depth - 1;
    var cols, init := ValidLocations(b), Best(None, Initial(maximising));
    if maximising {
      assert MaxInvariant(alpha, alpha, beta, init.value, init.value);
      MaxLoopFailSoft(b, d, cols, alpha, alpha, beta, init, init);
    } else {
      assert MinInvariant(beta, alpha, beta, init.value, init.value);
      MinLoopFailSoft(b, d, cols, beta, alpha, beta, init, init);
    }
    SearchLoopAt(b, depth, d, cols, alpha, beta, maximising, init);
    PlainLoopAt(b, depth, d, cols, maximising, init);
  }

  /** The pruned loop at depth `depth - 1` is the pruned loop at `d`. */
  lemma SearchLoopAt(b: Board, depth: nat, d: nat, cols: seq<int>, alpha: ExtInt, beta: ExtInt, maximising: bool, best: Best)
    requires d == depth - 1 && PlayableColumns(b, cols)
    ensures SearchLoop(b, depth - 1, cols, alpha, beta, maximising, best) == SearchLoop(b, d, cols, alpha, beta, maximising, best)
  {
  }

  /** The unpruned loop at depth `depth - 1` is the unpruned loop at `d`. */
  lemma PlainLoopAt(b: Board, depth: nat, d: nat, cols: seq<int>, maximising: bool, best: Best)
    requires d == depth - 1 && PlayableColumns(b, cols)
    ensures PlainLoop(b, depth - 1, cols, maximising, best) == PlainLoop(b, d, cols, maximising, best)
  {
  }

  // ---------------------------------------------------------------------------
  // One loop step, on values alone

  /**
   The invariant of the maximising loop: `alpha` is the node's `alpha0`
   raised to the pruned running best `bv`; while `bv` is at or below `alpha0`
   it bounds the unpruned running best `pv` from above, and once above the
   two agree.
   */
  predicate MaxInvariant(alpha0: ExtInt, alpha: ExtInt, beta: ExtInt, bv: ExtInt, pv: ExtInt) {
    && Lt(alpha, beta) && alpha == Max(alpha0, bv)
    && !bv.PosInf? && !pv.PosInf?
    && (Le(bv, alpha0) ==> Le(pv, bv))
    && (Lt(alpha0, bv) ==> pv == bv)
  }

  predicate MinInvariant(beta0: ExtInt, alpha: ExtInt, beta: ExtInt, bv: ExtInt, pv: ExtInt) {
    && Lt(alpha, beta) && beta == Min(beta0, bv)
    && !bv.NegInf? && !pv.NegInf?
    && (Le(beta0, bv) ==> Le(bv, pv))
    && (Lt(bv, beta0) ==> pv == bv)
  }

  /** When the columns run out, the invariant is the fail-soft relation. */
  lemma MaxInvariantEnd(alpha0: ExtInt, alpha: ExtInt, beta: ExtInt, bv: ExtInt, pv: ExtInt)
    requires MaxInvariant(alpha0, alpha, beta, bv, pv)
    ensures FailSoft(alpha0, beta, bv, pv)
  {
  }

  lemma MinInvariantEnd(beta0: ExtInt, alpha: ExtInt, beta: ExtInt, bv: ExtInt, pv: ExtInt)
    requires MinInvariant(beta0, alpha, beta, bv, pv)
    ensures FailSoft(alpha, beta0, bv, pv)
  {
  }

  /**
   One maximising step with child values `v` (pruned, searched in window
   (alpha, beta)) and `m` (unpruned): either the step cuts, and then the new
   pruned best is at least beta and at most the new unpruned best, or the
   invariant carries over.
   */
  lemma MaxStep(alpha0: ExtInt, alpha: ExtInt, beta: ExtInt, bv: ExtInt, pv: ExtInt, v: ExtInt, m: ExtInt)
    requires MaxInvariant(alpha0, alpha, beta, bv, pv)
    requires v.Fin? && m.Fin? && FailSoft(alpha, beta, v, m)
    ensures var bv', pv' := (if Lt(bv, v) then v else bv), (if Lt(pv, m) then m else pv);
      var alpha' := Max(alpha, bv');
      if Le(beta, alpha') then Lt(alpha0, beta) && Le(beta, bv') && Le(bv', pv')
      else MaxInvariant(alpha0, alpha', beta, bv', pv')
  {
  }

  lemma MinStep(beta0: ExtInt, alpha: ExtInt, beta: ExtInt, bv: ExtInt, pv: ExtInt, v: ExtInt, m: ExtInt)
    requires MinInvariant(beta0, alpha, beta, bv, pv)
    requires v.Fin? && m.Fin? && FailSoft(alpha, beta, v, m)
    ensures var bv', pv' := (if Lt(v, bv) then v else bv), (if Lt(m, pv) then m else pv);
      var beta' := Min(beta, bv');
      if Le(beta', alpha) then Lt(alpha, beta0) && Le(bv', alpha) && Le(pv', bv')
      else MinInvariant(beta0, alpha, beta', bv', pv')
  {
  }

  /** The fail-soft relation for one child of a node, searched to depth `d`. */
  lemma {:induction false} ChildFailSoft(b: Board, d: nat, col: int, alpha: ExtInt, beta: ExtInt, maximising: bool)
    requires 0 <= col < COLUMN_COUNT && IsValid(b, col) && Lt(alpha, beta)
    decreases d, 2, 0
    ensures FailSoft(alpha, beta, Fin(ChildScore(b, d, col, alpha, beta, maximising)), Fin(ChildValue(b, d, col, maximising)))
  {
    MinimaxFailSoft(Play(b, col, Mover(maximising)), d, alpha, beta, !maximising);
  }

  // ---------------------------------------------------------------------------
  // The loops

  /**
   The maximising loop, its children searched to depth `d`. `alpha0` is the
   node's alpha; `best` is the pruned running best and `plain` the unpruned
   one over the columns already explored.
   */
  lemma {:induction false} MaxLoopFailSoft(b: Board, d: nat, cols: seq<int>, alpha0: ExtInt, alpha: ExtInt, beta: ExtInt, best: Best, plain: Best)
    requires PlayableColumns(b, cols)
    requires MaxInvariant(alpha0, alpha, beta, best.value, plain.value)
    decreases d, 3, |cols|
    ensures FailSoft(alpha0, beta, SearchLoop(b, d, cols, alpha, beta, true, best).value, PlainLoop(b, d, cols, true, plain).value)
  {
    if cols == [] {
      MaxInvariantEnd(alpha0, alpha, beta, best.value, plain.value);
    } else {
      var col, rest := cols[0], cols[1..];
      var v := Fin(ChildScore(b, d, col, alpha, beta, true));
      var m := Fin(ChildValue(b, d, col, true));
      ChildFailSoft(b, d, col, alpha, beta, true);
      MaxStep(alpha0, alpha, beta, best.value, plain.value, v, m);
      var best' := if Lt(best.value, v) then Best(Some(col), v) else best;
      var plain' := if Lt(plain.value, m) then Best(Some(col), m) else plain;
      var alpha' := Max(alpha, best'.value);
      SearchLoopUnfold(b, d, cols, alpha, beta, true, best);
      PlainLoopUnfold(b, d, cols, true, plain);
      if Le(beta, alpha') {
        PlainLoopAtLeastStart(b, d, rest, true, plain');
        CutFailSoft(alpha0, beta, best'.value, plain'.value, PlainLoop(b, d, rest, true, plain').value);
      } else {
        MaxLoopFailSoft(b, d, rest, alpha0, alpha', beta, best', plain');
      }
    }
  }

  /** The minimising loop, the mirror image of `MaxLoopFailSoft` with beta in place of alpha. */
  lemma {:induction false} MinLoopFailSoft(b: Board, d: nat, cols: seq<int>, beta0: ExtInt, alpha: ExtInt, beta: ExtInt, best: Best, plain: Best)
    requires PlayableColumns(b, cols)
    requires MinInvariant(beta0, alpha, beta, best.value, plain.value)
    decreases d, 3, |cols|
    ensures FailSoft(alpha, beta0, SearchLoop(b, d, cols, alpha, beta, false, best).value, PlainLoop(b, d, cols, false, plain).value)
  {
    if cols == [] {
      MinInvariantEnd(beta0, alpha, beta, best.value, plain.value);
    } else {
      var col, rest := cols[0], cols[1..];
      var v := Fin(ChildScore(b, d, col, alpha, beta, false));
      var m := Fin(ChildValue(b, d, col, false));
      ChildFailSoft(b, d, col, alpha, beta, false);
      MinStep(beta0, alpha, beta, best.value, plain.value, v, m);
      var best' := if Lt(v, best.value) then Best(Some(col), v) else best;
      var plain' := if Lt(m, plain.value) then Best(Some(col), m) else plain;
      var beta' := Min(beta, best'.value);
      SearchLoopUnfold(b, d, cols, alpha, beta, false, best);
      PlainLoopUnfold(b, d, cols, false, plain);
      if Le(beta', alpha) {
        PlainLoopAtLeastStart(b, d, rest, false, plain');
        CutFailSoftLow(alpha, beta0, best'.value, plain'.value, PlainLoop(b, d, rest, false, plain').value);
      } else {
        MinLoopFailSoft(b, d, rest, beta0, alpha, beta', best', plain');
      }
    }
  }

  /** A cut at or above beta bounds the true value from below. */
  lemma CutFailSoft(alpha0: ExtInt, beta: ExtInt, v: ExtInt, p: ExtInt, m: ExtInt)
    requires Lt(alpha0, beta) && Le(beta, v) && Le(v, p) && Le(p, m)
    ensures FailSoft(alpha0, beta, v, m)
  {
  }

  /** A cut at or below alpha bounds the true value from above. */
  lemma CutFailSoftLow(alpha: ExtInt, beta0: ExtInt, v: ExtInt, p: ExtInt, m: ExtInt)
    requires Lt(alpha, beta0) && Le(v, alpha) && Le(p, v) && Le(m, p)
    ensures FailSoft(alpha, beta0, v, m)
  {
  }

  /**
   At the root the running best is the whole window's inner bound (alpha for
   the maximiser, beta for the minimiser) and the outer bound stays infinite,
   so no cut happens and every child's pruned score decides improvement as
   its unpruned score would: the two loops move in lock-step.
   */
  lemma {:induction false} RootLoopsAgree(b: Board, d: nat, cols: seq<int>, alpha: ExtInt, beta: ExtInt, maximising: bool, best: Best)
    requires PlayableColumns(b, cols)
    requires maximising ==> alpha == best.value && beta == PosInf && !best.value.PosInf?
    requires !maximising ==> alpha == NegInf && beta == best.value && !best.value.NegInf?
    decreases |cols|
    ensures SearchLoop(b, d, cols, alpha, beta, maximising, best) == PlainLoop(b, d, cols, maximising, best)
  {
    if cols != [] {
      var col, rest := cols[0], cols[1..];
      var v := Fin(ChildScore(b, d, col, alpha, beta, maximising));
      var m := Fin(ChildValue(b, d, col, maximising));
      ChildFailSoft(b, d, col, alpha, beta, maximising);
      var best' := if Improves(maximising, v, best.value) then Best(Some(col), v) else best;
      assert best' == if Improves(maximising, m, best.value) then Best(Some(col), m) else best;
      SearchLoopUnfold(b, d, cols, alpha, beta, maximising, best);
      PlainLoopUnfold(b, d, cols, maximising, best);
      if maximising {
        RootLoopsAgree(b, d, rest, best'.value, beta, maximising, best');
      } else {
        RootLoopsAgree(b, d, rest, alpha, best'.value, maximising, best');
      }
    }
  }

  /**
   Pruning preserves the result: called as the game loop calls it, with
   alpha = minus infinity and beta = plus infinity, the pruned search returns
   the same column and score as the unpruned search.
   */
  lemma PruningPreservesResult(b: Board, depth: nat, maximising: bool)
    ensures Minimax(b, depth, NegInf, PosInf, maximising) == PlainMinimax(b, depth, maximising)
  {
    if depth != 0 && !IsTerminal(b) {
      MinimaxUnfold(b, depth, NegInf, PosInf, maximising);
      PlainMinimaxUnfold(b, depth, maximising);
      RootLoopsAgreeAt(b, depth, maximising);
    }
  }

  /** The root loops of a node with `depth >= 1`, started from the full window, agree. */
  lemma RootLoopsAgreeAt(b: Board, depth: nat, maximising: bool)
    requires depth != 0
    ensures var cols, init := ValidLocations(b), Best(None, Initial(maximising));
      SearchLoop(b, depth - 1, cols, NegInf, PosInf, maximising, init) == PlainLoop(b, depth - 1, cols, maximising, init)
  {
    var d: nat := depth - 1;
    var cols, init := ValidLocations(b), Best(None, Initial(maximising));
    RootLoopsAgree(b, d, cols, NegInf, PosInf, maximising, init);
    SearchLoopAt(b, depth, d, cols, NegInf, PosInf, maximising, init);
    PlainLoopAt(b, depth, d, cols, maximising, init);
  }

}
