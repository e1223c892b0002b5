/**
  Iterative deepening around the minimax search: search the same position at
  depths 1, 2, ..., maxDepth, keep a move only when it strictly improves on the
  best kept so far, and stop after the first depth whose score is infinite.

  `DeepenFrom` states, as a value, what the loop leaves behind from a given
  depth on; `IterativeDeepening` is the loop itself on the mutable board,
  proved to compute exactly that.
 */
module Deepening {
  import opened Scores
  import opened BoardModel
  import opened MinimaxSearch
  import opened MinimaxProps
  import opened Pruning

  /**
    The search at one depth from the full window. When pruning is off the
    program passes `None` for both bounds; the search then never reads them.
   */
  function Root(b: Board, depth: nat, p: Player, pruning: bool): Result
    requires WellFormed(b)
  {
    Search(b, depth, p, NegInf, PosInf, pruning)
  }

  /** Keep `cur` only when it is strictly better for `p` than `best`. */
  function Keep(p: Player, best: Move, cur: Move): (r: Move)
    ensures Improves(p, cur.score, best.score) ==> r == cur
    ensures !Improves(p, cur.score, best.score) ==> r == best
    ensures r.score == Combine(p, best.score, cur.score)
  {
    if Improves(p, cur.score, best.score) then cur else best
  }

  /**
    The best move and the node counter that the loop returns when it starts
    at `depth` with `best` kept so far and the counter at `count`.
   */
  function DeepenFrom(b: Board, depth: nat, maxDepth: int, p: Player, pruning: bool, best: Move, count: int): (r: (Move, int))
    requires WellFormed(b) && depth >= 1
    decreases maxDepth + 1 - depth
  {
    if depth > maxDepth then (best, count)
    else
      var cur := Root(b, depth, p, pruning);
      var best' := Keep(p, best, cur.move);
      if IsInfinite(cur.move.score) then (best', count + cur.nodes)
      else DeepenFrom(b, depth + 1, maxDepth, p, pruning, best', count + cur.nodes)
  }

  /** `iterative_deepening_minimax(board, max_depth, player, node_count, use_pruning)` */
  function Deepen(b: Board, maxDepth: int, p: Player, pruning: bool, count: int): (r: (Move, int))
    requires WellFormed(b)
    ensures maxDepth < 1 ==> r == (NoMove(Worst(p)), count)
  {
    DeepenFrom(b, 1, maxDepth, p, pruning, NoMove(Worst(p)), count)
  }

  /** The number of depths the loop runs, starting at `depth`. */
  function DepthsRun(b: Board, depth: nat, maxDepth: int, p: Player, pruning: bool): nat
    requires WellFormed(b) && depth >= 1
    decreases maxDepth + 1 - depth
  {
    if depth > maxDepth then 0
    else if IsInfinite(Root(b, depth, p, pruning).move.score) then 1
    else 1 + DepthsRun(b, depth + 1, maxDepth, p, pruning)
  }

  /** The loop never resets the counter: every depth it runs adds at least one node. */
  lemma {:induction false} DeepenCounts(b: Board, depth: nat, maxDepth: int, p: Player, pruning: bool, best: Move, count: int)
    requires WellFormed(b) && depth >= 1
    ensures DeepenFrom(b, depth, maxDepth, p, pruning, best, count).1 >= count + DepthsRun(b, depth, maxDepth, p, pruning)
    decreases maxDepth + 1 - depth
  {
    if depth <= maxDepth {
      var cur := Root(b, depth, p, pruning);
      if !IsInfinite(cur.move.score) {
        DeepenCounts(b, depth + 1, maxDepth, p, pruning, Keep(p, best, cur.move), count + cur.nodes);
      }
    }
  }

  /** When no depth yields an infinite score, every depth from `depth` to `maxDepth` is run. */
  lemma {:induction false} DepthsRunAll(b: Board, depth: nat, maxDepth: int, p: Player, pruning: bool)
    requires WellFormed(b) && 1 <= depth <= maxDepth + 1
    requires forall d | depth <= d <= maxDepth :: !IsInfinite(Root(b, d, p, pruning).move.score)
    ensures DepthsRun(b, depth, maxDepth, p, pruning) == maxDepth + 1 - depth
    decreases maxDepth + 1 - depth
  {
    if depth <= maxDepth {
      DepthsRunAll(b, depth + 1, maxDepth, p, pruning);
    }
  }

  /** The move returned is the one kept at the start or the root move of one of the depths that ran. */
  lemma {:induction false} DeepenFromDepth(b: Board, depth: nat, maxDepth: int, p: Player, pruning: bool, best: Move, count: int)
    requires WellFormed(b) && depth >= 1
    ensures var r := DeepenFrom(b, depth, maxDepth, p, pruning, best, count).0;
            r == best || exists d | depth <= d < depth + DepthsRun(b, depth, maxDepth, p, pruning) :: r == Root(b, d, p, pruning).move
    decreases maxDepth + 1 - depth
  {
    if depth <= maxDepth {
      var cur := Root(b, depth, p, pruning);
      if !IsInfinite(cur.move.score) {
        DeepenFromDepth(b, depth + 1, maxDepth, p, pruning, Keep(p, best, cur.move), count + cur.nodes);
      }
    }
  }

  /**
    Ties across depths keep the earlier move: the move returned is the one
    kept at the start, or the root move of a depth that ran whose score is
    strictly better than the initial one and than that of every earlier depth.
   */
  lemma {:induction false} DeepenFirst(b: Board, depth: nat, maxDepth: int, p: Player, pruning: bool, best: Move, count: int)
    requires WellFormed(b) && depth >= 1
    ensures var r := DeepenFrom(b, depth, maxDepth, p, pruning, best, count).0;
            r == best ||
            exists d | depth <= d < depth + DepthsRun(b, depth, maxDepth, p, pruning) ::
              r == Root(b, d, p, pruning).move && Improves(p, r.score, best.score) &&
              forall e | depth <= e < d :: Improves(p, r.score, Root(b, e, p, pruning).move.score)
    decreases maxDepth + 1 - depth
  {
    if depth <= maxDepth {
      var cur := Root(b, depth, p, pruning);
      var best' := Keep(p, best, cur.move);
      var r := DeepenFrom(b, depth, maxDepth, p, pruning, best, count).0;
      var n := DepthsRun(b, depth, maxDepth, p, pruning);
      if IsInfinite(cur.move.score) {
        assert r == best';
        if r != best {
          assert n == 1 && r == Root(b, depth, p, pruning).move && Improves(p, r.score, best.score);
        }
      } else {
        DeepenFirst(b, depth + 1, maxDepth, p, pruning, best', count + cur.nodes);
        assert r == DeepenFrom(b, depth + 1, maxDepth, p, pruning, best', count + cur.nodes).0;
        assert n == 1 + DepthsRun(b, depth + 1, maxDepth, p, pruning);
        if r == best' {
          if r != best {
            assert r == Root(b, depth, p, pruning).move && Improves(p, r.score, best.score);
          }
        } else {
          var d :| depth + 1 <= d < depth + n && r == Root(b, d, p, pruning).move &&
                   Improves(p, r.score, best'.score) &&
                   forall e | depth + 1 <= e < d :: Improves(p, r.score, Root(b, e, p, pruning).move.score);
          ImprovesOver(p, r.score, best'.score, best.score);
          ImprovesOver(p, r.score, best'.score, cur.move.score);
          assert forall e | depth <= e < d :: Improves(p, r.score, Root(b, e, p, pruning).move.score);
        }
      }
    }
  }

  /** The kept score never gets worse. */
  lemma {:induction false} DeepenKeeps(b: Board, depth: nat, maxDepth: int, p: Player, pruning: bool, best: Move, count: int)
    requires WellFormed(b) && depth >= 1
    ensures !Improves(p, best.score, DeepenFrom(b, depth, maxDepth, p, pruning, best, count).0.score)
    decreases maxDepth + 1 - depth
  {
    if depth <= maxDepth {
      var cur := Root(b, depth, p, pruning);
      var best' := Keep(p, best, cur.move);
      if !IsInfinite(cur.move.score) {
        DeepenKeeps(b, depth + 1, maxDepth, p, pruning, best', count + cur.nodes);
        ScoresTransitive(p, best.score, best'.score, DeepenFrom(b, depth + 1, maxDepth, p, pruning, best', count + cur.nodes).0.score);
      }
    }
  }

  /** No depth that ran found a score strictly better than that of the move returned. */
  lemma {:induction false} DeepenBest(b: Board, depth: nat, maxDepth: int, p: Player, pruning: bool, best: Move, count: int)
    requires WellFormed(b) && depth >= 1
    ensures var r := DeepenFrom(b, depth, maxDepth, p, pruning, best, count).0;
            forall d | depth <= d < depth + DepthsRun(b, depth, maxDepth, p, pruning) :: !Improves(p, Root(b, d, p, pruning).move.score, r.score)
    decreases maxDepth + 1 - depth
  {
    if depth <= maxDepth {
      var cur := Root(b, depth, p, pruning);
      var best' := Keep(p, best, cur.move);
      if !IsInfinite(cur.move.score) {
        DeepenBest(b, depth + 1, maxDepth, p, pruning, best', count + cur.nodes);
        DeepenKeeps(b, depth + 1, maxDepth, p, pruning, best', count + cur.nodes);
        var r := DeepenFrom(b, depth + 1, maxDepth, p, pruning, best', count + cur.nodes).0;
        assert DeepenFrom(b, depth, maxDepth, p, pruning, best, count).0 == r;
        assert DepthsRun(b, depth, maxDepth, p, pruning) == 1 + DepthsRun(b, depth + 1, maxDepth, p, pruning);
        forall d | depth <= d < depth + DepthsRun(b, depth, maxDepth, p, pruning)
          ensures !Improves(p, Root(b, d, p, pruning).move.score, r.score)
        {
          if d == depth {
            ScoresTransitive(p, cur.move.score, best'.score, r.score);
          }
        }
      }
    }
  }

  /** "Not strictly better" chains along a kept score that does not get worse. */
  lemma ScoresTransitive(p: Player, a: Score, m: Score, c: Score)
    requires !Improves(p, a, m) && !Improves(p, m, c)
    ensures !Improves(p, a, c)
  {
    LtStrictTotal(a, m, c);
    LtStrictTotal(c, m, a);
  }

  /**
    The loop stops after the first depth whose score is infinite: raising
    the maximum depth beyond it changes neither the move nor the counter.
   */
  lemma {:induction false} DeepenStops(b: Board, depth: nat, stop: nat, m1: int, m2: int, p: Player, pruning: bool,
                                       best: Move, count: int)
    requires WellFormed(b) && 1 <= depth <= stop && stop <= m1 && stop <= m2
    requires IsInfinite(Root(b, stop, p, pruning).move.score)
    ensures DeepenFrom(b, depth, m1, p, pruning, best, count) == DeepenFrom(b, depth, m2, p, pruning, best, count)
    decreases stop - depth
  {
    var cur := Root(b, depth, p, pruning);
    if depth < stop && !IsInfinite(cur.move.score) {
      DeepenStops(b, depth + 1, stop, m1, m2, p, pruning, Keep(p, best, cur.move), count + cur.nodes);
    }
  }

  /**
    Turning pruning on changes neither the move that iterative deepening
    returns nor the depths it runs, and the counter grows by no more than
    without pruning.
   */
  lemma {:induction false} DeepenPruningAgrees(b: Board, depth: nat, maxDepth: int, p: Player, best: Move, c1: int, c2: int)
    requires WellFormed(b) && depth >= 1
    ensures DeepenFrom(b, depth, maxDepth, p, true, best, c1).0 == DeepenFrom(b, depth, maxDepth, p, false, best, c2).0
    ensures DepthsRun(b, depth, maxDepth, p, true) == DepthsRun(b, depth, maxDepth, p, false)
    ensures DeepenFrom(b, depth, maxDepth, p, true, best, c1).1 - c1 <= DeepenFrom(b, depth, maxDepth, p, false, best, c2).1 - c2
    decreases maxDepth + 1 - depth
  {
    if depth <= maxDepth {
      PruningAgrees(b, depth, p);
      var r1, r2 := Root(b, depth, p, true), Root(b, depth, p, false);
      if !IsInfinite(r1.move.score) {
        DeepenPruningAgrees(b, depth + 1, maxDepth, p, Keep(p, best, r1.move), c1 + r1.nodes, c2 + r2.nodes);
      }
    }
  }

  /**
    When the maximum depth does not exceed the number of open cells (the
    cap the game applies), no depth yields an infinite score, so every
    depth from 1 to the maximum is run and counts at least one node.
   */
  lemma DeepenRunsAllDepths(b: Board, maxDepth: int, p: Player, pruning: bool, count: int)
    requires WellFormed(b) && maxDepth <= |EmptyCells(b)|
    ensures maxDepth >= 1 ==> DepthsRun(b, 1, maxDepth, p, pruning) == maxDepth
    ensures Deepen(b, maxDepth, p, pruning, count).1 >= count + maxDepth
  {
    if maxDepth >= 1 {
      forall d | 1 <= d <= maxDepth
        ensures !IsInfinite(Root(b, d, p, pruning).move.score)
      {
        ValueFinite(b, d, p);
        if pruning {
          PrunedRootValue(b, d, p);
        } else {
          SearchUnpruned(b, d, p, NegInf, PosInf);
        }
      }
      DepthsRunAll(b, 1, maxDepth, p, pruning);
      DeepenCounts(b, 1, maxDepth, p, pruning, NoMove(Worst(p)), count);
    }
  }

  /** One round of the loop, with `cur` the search result at `depth` and `count'` the counter after it. */
  lemma DeepenStep(b: Board, depth: nat, maxDepth: int, p: Player, pruning: bool, best: Move, count: int,
                   cur: Result, count': int)
    requires WellFormed(b) && 1 <= depth <= maxDepth && cur == Root(b, depth, p, pruning)
    requires count' == count + cur.nodes
    ensures DeepenFrom(b, depth, maxDepth, p, pruning, best, count) ==
              if IsInfinite(cur.move.score) then (Keep(p, best, cur.move), count')
              else DeepenFrom(b, depth + 1, maxDepth, p, pruning, Keep(p, best, cur.move), count')
  {
  }

  /**
    iterative_deepening_minimax on the mutable board: it returns what
    `Deepen` says and leaves the board as it found it.
   */
  method IterativeDeepening(board: array2<Cell>, maxDepth: int, p: Player, nodeCount: int, pruning: bool)
    returns (best: Move, count: int)
    requires board.Length0 == 4 && board.Length1 == 4
    modifies board
    ensures Contents(board) == old(Contents(board))
    ensures (best, count) == Deepen(old(Contents(board)), maxDepth, p, pruning, nodeCount)
  {
    ghost var b := Contents(board);
    best := NoMove(Worst(p));
    count := nodeCount;
    var depth := 1;
    ghost var goal := Deepen(b, maxDepth, p, pruning, nodeCount);
    while depth <= maxDepth
      invariant 1 <= depth
      invariant Contents(board) == b
      invariant DeepenFrom(b, depth, maxDepth, p, pruning, best, count) == goal
      decreases maxDepth + 1 - depth
    {
      var stop;
      best, count, stop := DeepenRound(board, b, depth, maxDepth, p, pruning, best, count);
      if stop {
        break;
      }
      depth := depth + 1;
    }
  }

  /**
    One round of the loop of iterative_deepening_minimax: search at `depth`,
    keep the move on strict improvement, and report whether its score is
    infinite, which ends the loop.
   */
  method DeepenRound(board: array2<Cell>, ghost b: Board, depth: nat, maxDepth: int, p: Player, pruning: bool,
                     best: Move, count: int)
    returns (best': Move, count': int, stop: bool)
    requires board.Length0 == 4 && board.Length1 == 4 && Contents(board) == b && 1 <= depth <= maxDepth
    modifies board
    ensures Contents(board) == b
    ensures DeepenFrom(b, depth, maxDepth, p, pruning, best, count) ==
              if stop then (best', count') else DeepenFrom(b, depth + 1, maxDepth, p, pruning, best', count')
  {
    var current;
    current, count' := Minimax(board, depth, p, NegInf, PosInf, count, pruning);
    DeepenStep(b, depth, maxDepth, p, pruning, best, count, Result(current, count' - count), count');
    best' := best;
    if Improves(p, current.score, best.score) {
      best' := current;
    }
    stop := IsInfinite(current.score);
  }
}
