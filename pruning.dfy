/**
  What alpha-beta pruning preserves. A pruned search from the window
  (alpha, beta) returns a fail-soft bound on the minimax value: the exact
  value when it lies strictly inside the window, and a bound on the correct
  side of the window otherwise. From the full window at the root this means
  the pruned search returns the same move and score as the unpruned one,
  visiting no more nodes.
 */
module Pruning {
  import opened Scores
  import opened BoardModel
  import opened MinimaxSearch
  import opened MinimaxProps

  /**
    `r` is a fail-soft answer for the value `v` in the window (alpha, beta):
    at or below alpha it stays at or below alpha, at or above beta it stays
    at or above beta, and strictly inside the window it is exact.
   */
  predicate FailSoftOf(alpha: Score, beta: Score, v: Score, r: Score) {
    && (Le(v, alpha) ==> Le(r, alpha))
    && (Le(beta, v) ==> Le(beta, r))
    && (Lt(alpha, v) && Lt(v, beta) ==> r == v)
  }

  // ---------------------------------------------------------------------------
  // The loop of a maximising node (O) and of a minimising node (X), on scores
  // ---------------------------------------------------------------------------

  /**
    The state of the loop at an O node after some cells, with `best` the
    score kept, `a` the current alpha and `m` the true maximum of the child
    values so far. Before the cut-off, alpha is the larger of the original
    alpha and `best`, both still below beta, and `best` agrees with `m` as far
    as the window can tell; after the cut-off both have reached beta.
   */
  predicate MaxInv(alpha: Score, beta: Score, best: Score, a: Score, stopped: bool, m: Score) {
    if stopped then Le(beta, best) && Le(beta, m)
    else a == Max(alpha, best) && Lt(a, beta) && Max(alpha, best) == Max(alpha, m) && Lt(m, beta)
  }

  /** The mirror image for an X node, where beta moves and alpha stays. */
  predicate MinInv(alpha: Score, beta: Score, best: Score, bt: Score, stopped: bool, m: Score) {
    if stopped then Le(best, alpha) && Le(m, alpha)
    else bt == Min(beta, best) && Lt(alpha, bt) && Min(beta, best) == Min(beta, m) && Lt(alpha, m)
  }

  lemma MaxStart(alpha: Score, beta: Score)
    requires Lt(alpha, beta)
    ensures MaxInv(alpha, beta, NegInf, alpha, false, NegInf)
  {
  }

  lemma MinStart(alpha: Score, beta: Score)
    requires Lt(alpha, beta)
    ensures MinInv(alpha, beta, PosInf, beta, false, PosInf)
  {
  }

  /** One child at an O node searched in the window (a, beta) keeps the invariant. */
  lemma MaxStep(alpha: Score, beta: Score, best: Score, a: Score, m: Score, v: Score, r: Score)
    requires MaxInv(alpha, beta, best, a, false, m) && FailSoftOf(a, beta, v, r)
    ensures var best' := Max(best, r);
            var a' := Max(a, best');
            MaxInv(alpha, beta, best', a', Le(beta, a'), Max(m, v))
  {
    LtStrictTotal(alpha, best, r);
    LtStrictTotal(alpha, m, v);
    LtStrictTotal(a, v, beta);
    LtStrictTotal(a, r, beta);
  }

  /** One child at an X node searched in the window (alpha, bt) keeps the invariant. */
  lemma MinStep(alpha: Score, beta: Score, best: Score, bt: Score, m: Score, v: Score, r: Score)
    requires MinInv(alpha, beta, best, bt, false, m) && FailSoftOf(alpha, bt, v, r)
    ensures var best' := Min(best, r);
            var bt' := Min(bt, best');
            MinInv(alpha, beta, best', bt', Le(bt', alpha), Min(m, v))
  {
    LtStrictTotal(beta, best, r);
    LtStrictTotal(beta, m, v);
    LtStrictTotal(alpha, v, bt);
    LtStrictTotal(alpha, r, bt);
  }

  /** After the cut-off the remaining children can only raise the true maximum. */
  lemma MaxStopped(alpha: Score, beta: Score, best: Score, a: Score, m: Score, v: Score)
    requires MaxInv(alpha, beta, best, a, true, m)
    ensures MaxInv(alpha, beta, best, a, true, Max(m, v))
  {
    LtStrictTotal(beta, m, Max(m, v));
  }

  lemma MinStopped(alpha: Score, beta: Score, best: Score, bt: Score, m: Score, v: Score)
    requires MinInv(alpha, beta, best, bt, true, m)
    ensures MinInv(alpha, beta, best, bt, true, Min(m, v))
  {
    LtStrictTotal(Min(m, v), m, alpha);
  }

  /** At the end of the loop the kept score is a fail-soft answer for the true maximum. */
  lemma MaxFinal(alpha: Score, beta: Score, best: Score, a: Score, stopped: bool, m: Score)
    requires Lt(alpha, beta) && MaxInv(alpha, beta, best, a, stopped, m)
    ensures FailSoftOf(alpha, beta, m, best)
  {
    LtStrictTotal(alpha, best, m);
    LtStrictTotal(alpha, m, beta);
  }

  lemma MinFinal(alpha: Score, beta: Score, best: Score, bt: Score, stopped: bool, m: Score)
    requires Lt(alpha, beta) && MinInv(alpha, beta, best, bt, stopped, m)
    ensures FailSoftOf(alpha, beta, m, best)
  {
    LtStrictTotal(beta, best, m);
    LtStrictTotal(alpha, m, beta);
  }

  // ---------------------------------------------------------------------------
  // The search
  // ---------------------------------------------------------------------------

  /** The pruned search from a non-empty window answers fail-soft for the minimax value. */
  lemma FailSoft(b: Board, depth: nat, p: Player, alpha: Score, beta: Score)
    requires WellFormed(b) && Lt(alpha, beta)
    ensures FailSoftOf(alpha, beta, Value(b, depth, p), Search(b, depth, p, alpha, beta, true).move.score)
    decreases depth, 1
  {
    if !IsLeaf(b, depth) {
      SearchNode(b, depth, p, alpha, beta, true);
      var cells := EmptyCells(b);
      var s := Run(b, depth, p, true, cells, |cells|, Window(NoMove(Worst(p)), alpha, beta));
      if p == O {
        RunMax(b, depth, cells, |cells|, alpha, beta);
        MaxFinal(alpha, beta, s.w.best.score, s.w.alpha, s.stopped, BestOf(b, depth, p, cells, |cells|));
      } else {
        RunMin(b, depth, cells, |cells|, alpha, beta);
        MinFinal(alpha, beta, s.w.best.score, s.w.beta, s.stopped, BestOf(b, depth, p, cells, |cells|));
      }
    }
  }

  /** The loop of a pruned O node keeps `MaxInv` against the true maximum of the children tried. */
  lemma RunMax(b: Board, depth: nat, cells: seq<Coord>, n: nat, alpha: Score, beta: Score)
    requires WellFormed(b) && depth >= 1 && AllInBounds(cells) && n <= |cells| && Lt(alpha, beta)
    ensures var s := Run(b, depth, O, true, cells, n, Window(NoMove(NegInf), alpha, beta));
            s.w.beta == beta && MaxInv(alpha, beta, s.w.best.score, s.w.alpha, s.stopped, BestOf(b, depth, O, cells, n))
    decreases depth, 0, n
  {
    var start := Window(NoMove(NegInf), alpha, beta);
    if n == 0 {
      MaxStart(alpha, beta);
    } else {
      RunMax(b, depth, cells, n - 1, alpha, beta);
      var s := Run(b, depth, O, true, cells, n - 1, start);
      var c := cells[n - 1];
      var m := BestOf(b, depth, O, cells, n - 1);
      var v := ChildValue(b, depth, O, c);
      if s.stopped {
        MaxStopped(alpha, beta, s.w.best.score, s.w.alpha, m, v);
      } else {
        FailSoft(Place(b, c, O), depth - 1, X, s.w.alpha, beta);
        var child := Search(Place(b, c, O), depth - 1, X, s.w.alpha, s.w.beta, true);
        MaxStep(alpha, beta, s.w.best.score, s.w.alpha, m, v, child.move.score);
      }
    }
  }

  /** The loop of a pruned X node keeps `MinInv` against the true minimum of the children tried. */
  lemma RunMin(b: Board, depth: nat, cells: seq<Coord>, n: nat, alpha: Score, beta: Score)
    requires WellFormed(b) && depth >= 1 && AllInBounds(cells) && n <= |cells| && Lt(alpha, beta)
    ensures var s := Run(b, depth, X, true, cells, n, Window(NoMove(PosInf), alpha, beta));
            s.w.alpha == alpha && MinInv(alpha, beta, s.w.best.score, s.w.beta, s.stopped, BestOf(b, depth, X, cells, n))
    decreases depth, 0, n
  {
    var start := Window(NoMove(PosInf), alpha, beta);
    if n == 0 {
      MinStart(alpha, beta);
    } else {
      RunMin(b, depth, cells, n - 1, alpha, beta);
      var s := Run(b, depth, X, true, cells, n - 1, start);
      var c := cells[n - 1];
      var m := BestOf(b, depth, X, cells, n - 1);
      var v := ChildValue(b, depth, X, c);
      if s.stopped {
        MinStopped(alpha, beta, s.w.best.score, s.w.beta, m, v);
      } else {
        FailSoft(Place(b, c, X), depth - 1, O, alpha, s.w.beta);
        var child := Search(Place(b, c, X), depth - 1, O, s.w.alpha, s.w.beta, true);
        MinStep(alpha, beta, s.w.best.score, s.w.beta, m, v, child.move.score);
      }
    }
  }

  // ---------------------------------------------------------------------------
  // The root: the full window
  // ---------------------------------------------------------------------------

  /** From the full window the pruned search returns the exact minimax value. */
  lemma PrunedRootValue(b: Board, depth: nat, p: Player)
    requires WellFormed(b)
    ensures Search(b, depth, p, NegInf, PosInf, true).move.score == Value(b, depth, p)
  {
    FailSoft(b, depth, p, NegInf, PosInf);
  }

  /**
    From the full window the pruned search settles on the same move as the
    search without pruning: the one that `Chosen` describes.
   */
  lemma PrunedRootMove(b: Board, depth: nat, p: Player)
    requires WellFormed(b)
    ensures Search(b, depth, p, NegInf, PosInf, true).move == Chosen(b, depth, p)
  {
    if !IsLeaf(b, depth) {
      SearchNode(b, depth, p, NegInf, PosInf, true);
      var cells := EmptyCells(b);
      if p == O {
        RootMax(b, depth, cells, |cells|);
      } else {
        RootMin(b, depth, cells, |cells|);
      }
    }
  }

  /**
    The loop of an O node searched from the full window keeps the move that
    `ChosenOf` describes; alpha follows the kept score, and the loop breaks
    off only once that score is plus infinity, which nothing can improve on.
   */
  lemma RootMax(b: Board, depth: nat, cells: seq<Coord>, n: nat)
    requires WellFormed(b) && depth >= 1 && AllInBounds(cells) && n <= |cells|
    ensures var s := Run(b, depth, O, true, cells, n, Window(NoMove(NegInf), NegInf, PosInf));
            && s.w.best == ChosenOf(b, depth, O, cells, n) && s.w.beta == PosInf
            && if s.stopped then s.w.best.score == PosInf
               else s.w.alpha == s.w.best.score && s.w.best.score != PosInf
    decreases n
  {
    if n > 0 {
      RootMax(b, depth, cells, n - 1);
      var s := Run(b, depth, O, true, cells, n - 1, Window(NoMove(NegInf), NegInf, PosInf));
      if !s.stopped {
        FailSoft(Place(b, cells[n - 1], O), depth - 1, X, s.w.alpha, PosInf);
      }
    }
  }

  /** The mirror image of `RootMax` for an X node. */
  lemma RootMin(b: Board, depth: nat, cells: seq<Coord>, n: nat)
    requires WellFormed(b) && depth >= 1 && AllInBounds(cells) && n <= |cells|
    ensures var s := Run(b, depth, X, true, cells, n, Window(NoMove(PosInf), NegInf, PosInf));
            && s.w.best == ChosenOf(b, depth, X, cells, n) && s.w.alpha == NegInf
            && if s.stopped then s.w.best.score == NegInf
               else s.w.beta == s.w.best.score && s.w.best.score != NegInf
    decreases n
  {
    if n > 0 {
      RootMin(b, depth, cells, n - 1);
      var s := Run(b, depth, X, true, cells, n - 1, Window(NoMove(PosInf), NegInf, PosInf));
      if !s.stopped {
        FailSoft(Place(b, cells[n - 1], X), depth - 1, O, NegInf, s.w.beta);
      }
    }
  }

  /**
    Turning pruning on at the root changes neither the move nor the score,
    and never makes the search visit more nodes.
   */
  lemma PruningAgrees(b: Board, depth: nat, p: Player)
    requires WellFormed(b)
    ensures Search(b, depth, p, NegInf, PosInf, true).move == Search(b, depth, p, NegInf, PosInf, false).move
    ensures Search(b, depth, p, NegInf, PosInf, true).nodes <= Search(b, depth, p, NegInf, PosInf, false).nodes
  {
    PrunedRootMove(b, depth, p);
    SearchUnpruned(b, depth, p, NegInf, PosInf);
    SearchNodesBound(b, depth, p, NegInf, PosInf, true);
  }
}
