/**
  What the search is promised to compute, stated against reference
  definitions that know nothing of the loop, the window or the node counter:
  `Value` is the plain minimax value of a position and `TreeSize` the number
  of positions in its game tree, both cut off at the given depth and at won
  positions.
 */
module MinimaxProps {
  import opened Scores
  import opened BoardModel
  import opened MinimaxSearch

  // ---------------------------------------------------------------------------
  // Reference definitions
  // ---------------------------------------------------------------------------

  /** The minimax value: the heuristic at a leaf, else the best child value for `p`. */
  function Value(b: Board, depth: nat, p: Player): Score
    requires WellFormed(b)
    decreases depth, 1
  {
    if IsLeaf(b, depth) then Fin(Evaluate(b))
    else
      EmptyCellsOpen(b);
      BestOf(b, depth, p, EmptyCells(b), |EmptyCells(b)|)
  }

  /** The best of the values of the children reached through the first `n` cells, from `Worst(p)`. */
  function BestOf(b: Board, depth: nat, p: Player, cells: seq<Coord>, n: nat): Score
    requires WellFormed(b) && depth >= 1 && AllInBounds(cells) && n <= |cells|
    decreases depth, 0, n
  {
    if n == 0 then Worst(p)
    else Combine(p, BestOf(b, depth, p, cells, n - 1), ChildValue(b, depth, p, cells[n - 1]))
  }

  /** The minimax value of the position after `p` plays cell `c`. */
  function ChildValue(b: Board, depth: nat, p: Player, c: Coord): Score
    requires WellFormed(b) && depth >= 1 && InBounds(c)
    decreases depth, 0, 0
  {
    Value(Place(b, c, p), depth - 1, Other(p))
  }

  /**
    The move the search settles on, from the values alone: at a leaf no move
    with the heuristic score, else the first open cell (in the order of
    `EmptyCells`) whose child value is strictly better than every earlier one.
   */
  function Chosen(b: Board, depth: nat, p: Player): Move
    requires WellFormed(b)
  {
    if IsLeaf(b, depth) then NoMove(Fin(Evaluate(b)))
    else
      EmptyCellsOpen(b);
      ChosenOf(b, depth, p, EmptyCells(b), |EmptyCells(b)|)
  }

  /** The move kept after the first `n` cells, starting from no move with `Worst(p)`. */
  function ChosenOf(b: Board, depth: nat, p: Player, cells: seq<Coord>, n: nat): Move
    requires WellFormed(b) && depth >= 1 && AllInBounds(cells) && n <= |cells|
    decreases n
  {
    if n == 0 then NoMove(Worst(p))
    else
      var m := ChosenOf(b, depth, p, cells, n - 1);
      var v := ChildValue(b, depth, p, cells[n - 1]);
      if Improves(p, v, m.score) then Move(cells[n - 1].0, cells[n - 1].1, v) else m
  }

  /** The move chosen carries the minimax value. */
  lemma ChosenValue(b: Board, depth: nat, p: Player)
    requires WellFormed(b)
    ensures Chosen(b, depth, p).score == Value(b, depth, p)
  {
    if !IsLeaf(b, depth) {
      EmptyCellsOpen(b);
      ChosenOfScore(b, depth, p, EmptyCells(b), |EmptyCells(b)|);
    }
  }

  /** Keeping the first strictly better child yields the best child value. */
  lemma {:induction false} ChosenOfScore(b: Board, depth: nat, p: Player, cells: seq<Coord>, n: nat)
    requires WellFormed(b) && depth >= 1 && AllInBounds(cells) && n <= |cells|
    ensures ChosenOf(b, depth, p, cells, n).score == BestOf(b, depth, p, cells, n)
    decreases n
  {
    if n > 0 {
      ChosenOfScore(b, depth, p, cells, n - 1);
    }
  }

  /** No child value is strictly better for `p` than the score of the move chosen. */
  lemma {:induction false} ChosenOfBest(b: Board, depth: nat, p: Player, cells: seq<Coord>, n: nat)
    requires WellFormed(b) && depth >= 1 && AllInBounds(cells) && n <= |cells|
    ensures forall j | 0 <= j < n :: !Improves(p, ChildValue(b, depth, p, cells[j]), ChosenOf(b, depth, p, cells, n).score)
    decreases n
  {
    if n > 0 {
      ChosenOfBest(b, depth, p, cells, n - 1);
      var m := ChosenOf(b, depth, p, cells, n - 1);
      var v := ChildValue(b, depth, p, cells[n - 1]);
      if Improves(p, v, m.score) {
        forall j | 0 <= j < n - 1
          ensures !Improves(p, ChildValue(b, depth, p, cells[j]), v)
        {
          ImprovesNotOver(p, v, m.score, ChildValue(b, depth, p, cells[j]));
        }
        LtStrictTotal(v, v, v);
      }
    }
  }

  /**
    Ties go to the earliest cell: a move chosen is that of a cell whose
    child value is strictly better for `p` than that of every earlier cell.
    With `ChosenOfBest` this makes it the first best cell.
   */
  lemma {:induction false} ChosenOfFirst(b: Board, depth: nat, p: Player, cells: seq<Coord>, n: nat)
    requires WellFormed(b) && depth >= 1 && AllInBounds(cells) && n <= |cells|
    ensures var m := ChosenOf(b, depth, p, cells, n);
            || m == NoMove(Worst(p))
            || exists k | 0 <= k < n ::
                 && m == Move(cells[k].0, cells[k].1, ChildValue(b, depth, p, cells[k]))
                 && forall j | 0 <= j < k :: Improves(p, ChildValue(b, depth, p, cells[k]), ChildValue(b, depth, p, cells[j]))
    decreases n
  {
    if n > 0 {
      ChosenOfFirst(b, depth, p, cells, n - 1);
      var m := ChosenOf(b, depth, p, cells, n - 1);
      var v := ChildValue(b, depth, p, cells[n - 1]);
      if Improves(p, v, m.score) {
        ChosenOfBest(b, depth, p, cells, n - 1);
        forall j | 0 <= j < n - 1
          ensures Improves(p, v, ChildValue(b, depth, p, cells[j]))
        {
          ImprovesOver(p, v, m.score, ChildValue(b, depth, p, cells[j]));
        }
      }
    }
  }

  /** Strictly better than `m`, which `c` does not beat, means `c` does not beat it either. */
  lemma ImprovesNotOver(p: Player, a: Score, m: Score, c: Score)
    requires Improves(p, a, m) && !Improves(p, c, m)
    ensures !Improves(p, c, a)
  {
    LtStrictTotal(c, m, a);
    LtStrictTotal(a, m, c);
  }

  /** Strictly better than a score that `c` does not beat is strictly better than `c`. */
  lemma ImprovesOver(p: Player, a: Score, m: Score, c: Score)
    requires Improves(p, a, m) && !Improves(p, c, m)
    ensures Improves(p, a, c)
  {
    LtStrictTotal(c, m, a);
    LtStrictTotal(a, m, c);
  }

  /** The number of positions in the game tree below `b`, `b` included. */
  function TreeSize(b: Board, depth: nat, p: Player): nat
    requires WellFormed(b)
    decreases depth, 1
  {
    if IsLeaf(b, depth) then 1
    else
      EmptyCellsOpen(b);
      1 + SizeOf(b, depth, p, EmptyCells(b), |EmptyCells(b)|)
  }

  /** The sizes of the trees of the children reached through the first `n` cells, added up. */
  function SizeOf(b: Board, depth: nat, p: Player, cells: seq<Coord>, n: nat): nat
    requires WellFormed(b) && depth >= 1 && AllInBounds(cells) && n <= |cells|
    decreases depth, 0, n
  {
    if n == 0 then 0
    else SizeOf(b, depth, p, cells, n - 1) + TreeSize(Place(b, cells[n - 1], p), depth - 1, Other(p))
  }

  // ---------------------------------------------------------------------------
  // The search without pruning
  // ---------------------------------------------------------------------------

  /**
    Without pruning the search returns the minimax value and visits the
    whole tree: the node and every child subtree are counted.
   */
  lemma SearchUnpruned(b: Board, depth: nat, p: Player, alpha: Score, beta: Score)
    requires WellFormed(b)
    ensures Search(b, depth, p, alpha, beta, false).move == Chosen(b, depth, p)
    ensures Search(b, depth, p, alpha, beta, false).move.score == Value(b, depth, p)
    ensures Search(b, depth, p, alpha, beta, false).nodes == TreeSize(b, depth, p)
    decreases depth, 1
  {
    if !IsLeaf(b, depth) {
      SearchNode(b, depth, p, alpha, beta, false);
      RunUnpruned(b, depth, p, EmptyCells(b), |EmptyCells(b)|, Window(NoMove(Worst(p)), alpha, beta));
    }
    ChosenValue(b, depth, p);
  }

  /** The loop without pruning never breaks off and never touches the window. */
  lemma RunUnpruned(b: Board, depth: nat, p: Player, cells: seq<Coord>, n: nat, start: Window)
    requires WellFormed(b) && depth >= 1 && AllInBounds(cells) && n <= |cells|
    requires start.best == NoMove(Worst(p))
    ensures var s := Run(b, depth, p, false, cells, n, start);
            && !s.stopped && s.w.alpha == start.alpha && s.w.beta == start.beta
            && s.w.best == ChosenOf(b, depth, p, cells, n)
            && s.nodes == 1 + SizeOf(b, depth, p, cells, n)
    decreases depth, 0, n
  {
    if n > 0 {
      RunUnpruned(b, depth, p, cells, n - 1, start);
      var s := Run(b, depth, p, false, cells, n - 1, start);
      SearchUnpruned(Place(b, cells[n - 1], p), depth - 1, Other(p), s.w.alpha, s.w.beta);
    }
  }

  /** Without pruning the bounds passed in are never looked at: any two windows give the same result. */
  lemma UnprunedIgnoresWindow(b: Board, depth: nat, p: Player, a1: Score, b1: Score, a2: Score, b2: Score)
    requires WellFormed(b)
    ensures Search(b, depth, p, a1, b1, false) == Search(b, depth, p, a2, b2, false)
  {
    SearchUnpruned(b, depth, p, a1, b1);
    SearchUnpruned(b, depth, p, a2, b2);
  }

  // ---------------------------------------------------------------------------
  // Facts that hold with or without pruning
  // ---------------------------------------------------------------------------

  /**
    The base case: an exhausted depth or a won position counts one node and
    returns no move with the heuristic score, which lies within +-10000.
   */
  lemma SearchLeaf(b: Board, depth: nat, p: Player, alpha: Score, beta: Score, pruning: bool)
    requires WellFormed(b) && IsLeaf(b, depth)
    ensures Search(b, depth, p, alpha, beta, pruning) == Result(NoMove(Fin(Evaluate(b))), 1)
    ensures var r := Search(b, depth, p, alpha, beta, pruning);
            r.nodes == 1 && r.move.row == -1 && r.move.col == -1 &&
            r.move.score.Fin? && -10000 <= r.move.score.n <= 10000
  {
    EvaluateBound(b);
  }

  /**
    With no open cell and no winner the loop has nothing to try: the node
    counts one and returns (-1, -1) with minus infinity for O, plus infinity for X.
   */
  lemma FullBoardNoMove(b: Board, depth: nat, p: Player, alpha: Score, beta: Score, pruning: bool)
    requires WellFormed(b) && depth >= 1 && !HasWon(b, O) && !HasWon(b, X)
    requires forall i, j | 0 <= i < 4 && 0 <= j < 4 :: b[i][j] != Empty
    ensures Search(b, depth, p, alpha, beta, pruning) == Result(Move(-1, -1, if p == O then NegInf else PosInf), 1)
  {
    FullIffNoOpenCell(b);
    SearchNode(b, depth, p, alpha, beta, pruning);
  }

  /** The search, pruned or not, never counts more nodes than the tree has. */
  lemma SearchNodesBound(b: Board, depth: nat, p: Player, alpha: Score, beta: Score, pruning: bool)
    requires WellFormed(b)
    ensures Search(b, depth, p, alpha, beta, pruning).nodes <= TreeSize(b, depth, p)
    decreases depth, 1
  {
    if !IsLeaf(b, depth) {
      SearchNode(b, depth, p, alpha, beta, pruning);
      RunNodesBound(b, depth, p, pruning, EmptyCells(b), |EmptyCells(b)|, Window(NoMove(Worst(p)), alpha, beta));
    }
  }

  lemma RunNodesBound(b: Board, depth: nat, p: Player, pruning: bool, cells: seq<Coord>, n: nat, start: Window)
    requires WellFormed(b) && depth >= 1 && AllInBounds(cells) && n <= |cells|
    ensures Run(b, depth, p, pruning, cells, n, start).nodes <= 1 + SizeOf(b, depth, p, cells, n)
    decreases depth, 0, n
  {
    if n > 0 {
      RunNodesBound(b, depth, p, pruning, cells, n - 1, start);
      var s := Run(b, depth, p, pruning, cells, n - 1, start);
      SearchNodesBound(Place(b, cells[n - 1], p), depth - 1, Other(p), s.w.alpha, s.w.beta, pruning);
    }
  }

  /** A move other than (-1, -1) names a cell that was open in the position searched. */
  lemma SearchMoveLegal(b: Board, depth: nat, p: Player, alpha: Score, beta: Score, pruning: bool)
    requires WellFormed(b)
    ensures var m := Search(b, depth, p, alpha, beta, pruning).move;
            (m.row == -1 && m.col == -1) || (InBounds((m.row, m.col)) && b[m.row][m.col] == Empty)
  {
    if !IsLeaf(b, depth) {
      SearchNode(b, depth, p, alpha, beta, pruning);
      var cells := EmptyCells(b);
      RunMoveFrom(b, depth, p, pruning, cells, |cells|, Window(NoMove(Worst(p)), alpha, beta));
      var m := Search(b, depth, p, alpha, beta, pruning).move;
      if m.row != -1 {
        var k :| 0 <= k < |cells| && (m.row, m.col) == cells[k];
        EmptyCellAt(b, k);
      }
    }
  }

  /** The move kept by the loop is the one it started from or one of the cells tried. */
  lemma {:induction false} RunMoveFrom(b: Board, depth: nat, p: Player, pruning: bool, cells: seq<Coord>, n: nat, start: Window)
    requires WellFormed(b) && depth >= 1 && AllInBounds(cells) && n <= |cells|
    requires start.best.row == -1 && start.best.col == -1
    ensures var m := Run(b, depth, p, pruning, cells, n, start).w.best;
            (m.row == -1 && m.col == -1) || exists k | 0 <= k < n :: (m.row, m.col) == cells[k]
    decreases n
  {
    if n > 0 {
      RunMoveFrom(b, depth, p, pruning, cells, n - 1, start);
      var m := Run(b, depth, p, pruning, cells, n - 1, start).w.best;
      if m.row != -1 || m.col != -1 {
        var k :| 0 <= k < n - 1 && (m.row, m.col) == cells[k];
        assert (m.row, m.col) == cells[k];
      }
    }
  }

  // ---------------------------------------------------------------------------
  // Finite scores
  // ---------------------------------------------------------------------------

  /**
    When the depth does not exceed the number of open cells (as the game
    caps it), the minimax value is finite: the infinite sentinel is never
    returned.
   */
  lemma ValueFinite(b: Board, depth: nat, p: Player)
    requires WellFormed(b) && depth <= |EmptyCells(b)|
    ensures Value(b, depth, p).Fin?
    decreases depth, 1
  {
    if !IsLeaf(b, depth) {
      EmptyCellsOpen(b);
      BestOfFinite(b, depth, p, |EmptyCells(b)|);
    }
  }

  lemma BestOfFinite(b: Board, depth: nat, p: Player, n: nat)
    requires WellFormed(b) && 1 <= depth <= |EmptyCells(b)| && 1 <= n <= |EmptyCells(b)|
    requires AllInBounds(EmptyCells(b))
    ensures BestOf(b, depth, p, EmptyCells(b), n).Fin?
    decreases depth, 0, n
  {
    var cells := EmptyCells(b);
    EmptyCellAt(b, n - 1);
    PlaceRemovesOpenCell(b, cells[n - 1], p);
    ValueFinite(Place(b, cells[n - 1], p), depth - 1, Other(p));
    if n > 1 {
      BestOfFinite(b, depth, p, n - 1);
    }
  }
}
