/**
  The recursive minimax search with optional alpha-beta pruning.

  `Search` states, as a value, what one call of the search returns: the
  chosen move with its score, and the number of nodes it visits (the amount
  by which it increments the shared node counter). `Minimax` is the search as
  the program runs it: it marks cells of the mutable board in place, recurses,
  and clears the mark again, and it is proved to return exactly what `Search`
  says and to leave the board as it found it.
 */
module MinimaxSearch {
  import opened Scores
  import opened BoardModel

  /** A move `[row, column, score]`; (-1, -1) stands for "no move". */
  datatype Move = Move(row: int, col: int, score: Score)

  /** What one search call yields: its move and the number of nodes it visited. */
  datatype Result = Result(move: Move, nodes: nat)

  function NoMove(s: Score): (m: Move)
    ensures m.row == -1 && m.col == -1 && m.score == s
  {
    Move(-1, -1, s)
  }

  /** The initial `best` score: minus infinity for the maximiser O, plus infinity for X. */
  function Worst(p: Player): (s: Score)
    ensures IsInfinite(s)
    ensures s == NegInf <==> p == O
    ensures s == PosInf <==> p == X
  {
    if p == O then NegInf else PosInf
  }

  /** `cand` strictly improves on `cur` for `p`: greater for O, smaller for X. */
  predicate Improves(p: Player, cand: Score, cur: Score) {
    if p == O then Lt(cur, cand) else Lt(cand, cur)
  }

  /** The better of two scores for `p` (max for O, min for X). */
  function Combine(p: Player, a: Score, b: Score): (r: Score)
    ensures r == a || r == b
    ensures !Improves(p, a, r) && !Improves(p, b, r)
  {
    if p == O then Max(a, b) else Min(a, b)
  }

  /** The base case of the search: depth exhausted or somebody has already won. */
  predicate IsLeaf(b: Board, depth: nat)
    requires WellFormed(b)
  {
    depth == 0 || HasWon(b, O) || HasWon(b, X)
  }

  predicate AllInBounds(cells: seq<Coord>) {
    forall k | 0 <= k < |cells| :: InBounds(cells[k])
  }

  /** The loop state of one search node: the best move so far and the current window. */
  datatype Window = Window(best: Move, alpha: Score, beta: Score)

  /**
    One pass of the loop body after the child search returned the candidate
    move `cand` (the cell just tried, with the child's score): keep the
    candidate only on strict improvement, then narrow the window when pruning.
   */
  function Step(p: Player, pruning: bool, w: Window, cand: Move): (w': Window)
    ensures w'.best == w.best || w'.best == cand
    ensures w'.best.score == Combine(p, w.best.score, cand.score)
  {
    var best' := if Improves(p, cand.score, w.best.score) then cand else w.best;
    Window(best',
           if pruning && p == O then Max(w.alpha, best'.score) else w.alpha,
           if pruning && p != O then Min(w.beta, best'.score) else w.beta)
  }

  /** `use_pruning and alpha >= beta` */
  predicate CutOff(pruning: bool, w: Window) {
    pruning && Le(w.beta, w.alpha)
  }

  /** The loop state after some of the cells: the window, the nodes counted so far, and whether the loop broke off. */
  datatype LoopState = LoopState(w: Window, nodes: nat, stopped: bool)

  /**
    One call `minimax(board, depth, player, alpha, beta, count, use_pruning)`
    on the board value `b`. When `pruning` is false, `alpha` and `beta` are
    never looked at.
   */
  function Search(b: Board, depth: nat, p: Player, alpha: Score, beta: Score, pruning: bool): (r: Result)
    requires WellFormed(b)
    ensures r.nodes >= 1
    decreases depth, 2
  {
    if depth == 0 then Leaf(b) else Node(b, depth, p, alpha, beta, pruning)
  }

  /** The base case: the heuristic score of the board, and the one node visited. */
  function Leaf(b: Board): Result
    requires WellFormed(b)
  {
    Result(NoMove(Fin(Evaluate(b))), 1)
  }

  /** The search with some depth left: a leaf if somebody has won, otherwise the loop over the open cells. */
  function Node(b: Board, depth: nat, p: Player, alpha: Score, beta: Score, pruning: bool): (r: Result)
    requires WellFormed(b) && depth >= 1
    ensures r.nodes >= 1
    decreases depth, 1
  {
    if HasWon(b, O) || HasWon(b, X) then Leaf(b)
    else
      EmptyCellsOpen(b);
      var s := Run(b, depth, p, pruning, EmptyCells(b), |EmptyCells(b)|, Window(NoMove(Worst(p)), alpha, beta));
      Result(s.w.best, s.nodes)
  }

  /**
    The loop of minimax over `cells` after its first `n` iterations, started
    from the loop state `start` with the node itself counted. Once the loop
    has broken off, later cells change nothing.
   */
  function Run(b: Board, depth: nat, p: Player, pruning: bool, cells: seq<Coord>, n: nat, start: Window): (s: LoopState)
    requires WellFormed(b) && depth >= 1 && AllInBounds(cells) && n <= |cells|
    ensures s.nodes >= 1
    decreases depth, 0, n
  {
    if n == 0 then LoopState(start, 1, false)
    else
      var s := Run(b, depth, p, pruning, cells, n - 1, start);
      if s.stopped then s
      else
        var child := Child(b, depth, p, s.w.alpha, s.w.beta, pruning, cells[n - 1]);
        var w' := Step(p, pruning, s.w, Move(cells[n - 1].0, cells[n - 1].1, child.move.score));
        LoopState(w', s.nodes + child.nodes, CutOff(pruning, w'))
  }

  /** The search one level deeper after `p` has taken the cell `c`. */
  function Child(b: Board, depth: nat, p: Player, alpha: Score, beta: Score, pruning: bool, c: Coord): (r: Result)
    requires WellFormed(b) && depth >= 1 && InBounds(c)
    decreases depth, 0, 0
  {
    Search(Place(b, c, p), depth - 1, Other(p), alpha, beta, pruning)
  }

  /** A node that is not a leaf runs the loop over all of its open cells. */
  lemma SearchNode(b: Board, depth: nat, p: Player, alpha: Score, beta: Score, pruning: bool)
    requires WellFormed(b) && !IsLeaf(b, depth)
    ensures AllInBounds(EmptyCells(b))
    ensures var s := Run(b, depth, p, pruning, EmptyCells(b), |EmptyCells(b)|, Window(NoMove(Worst(p)), alpha, beta));
            Search(b, depth, p, alpha, beta, pruning) == Result(s.w.best, s.nodes)
  {
    EmptyCellsOpen(b);
    assert Search(b, depth, p, alpha, beta, pruning) == Node(b, depth, p, alpha, beta, pruning);
  }

  /** One more iteration of the loop, from a state that has not broken off. */
  lemma RunStep(b: Board, depth: nat, p: Player, pruning: bool, cells: seq<Coord>, i: nat,
                start: Window, prev: LoopState, child: Result, w': Window)
    requires WellFormed(b) && depth >= 1 && AllInBounds(cells) && i < |cells|
    requires prev == Run(b, depth, p, pruning, cells, i, start) && !prev.stopped
    requires child == Search(Place(b, cells[i], p), depth - 1, Other(p), prev.w.alpha, prev.w.beta, pruning)
    requires w' == Step(p, pruning, prev.w, Move(cells[i].0, cells[i].1, child.move.score))
    ensures Run(b, depth, p, pruning, cells, i + 1, start) == LoopState(w', prev.nodes + child.nodes, CutOff(pruning, w'))
  {
  }

  /** After the loop has broken off, the state stays as it was. */
  lemma {:induction false} RunStopped(b: Board, depth: nat, p: Player, pruning: bool, cells: seq<Coord>,
                                      n: nat, m: nat, start: Window)
    requires WellFormed(b) && depth >= 1 && AllInBounds(cells) && n <= m <= |cells|
    requires Run(b, depth, p, pruning, cells, n, start).stopped
    ensures Run(b, depth, p, pruning, cells, m, start) == Run(b, depth, p, pruning, cells, n, start)
    decreases m
  {
    if m > n {
      RunStopped(b, depth, p, pruning, cells, n, m - 1, start);
      var prev := Run(b, depth, p, pruning, cells, m - 1, start);
      assert prev.stopped;
      assert Run(b, depth, p, pruning, cells, m, start) == prev;
    }
  }

  /**
    minimax on the mutable board. The node counter is the integer `count` held
    by the one-element list of the program; the new value is returned.
   */
  method Minimax(board: array2<Cell>, depth: nat, p: Player, alpha: Score, beta: Score, count: int, pruning: bool)
    returns (best: Move, count': int)
    requires board.Length0 == 4 && board.Length1 == 4
    modifies board
    ensures Contents(board) == old(Contents(board))
    ensures best == Search(old(Contents(board)), depth, p, alpha, beta, pruning).move
    ensures count' == count + Search(old(Contents(board)), depth, p, alpha, beta, pruning).nodes
    decreases depth, 1
  {
    ghost var b := Contents(board);
    count' := count + 1;
    if depth == 0 || HasWon(Contents(board), O) || HasWon(Contents(board), X) {
      return NoMove(Fin(Evaluate(Contents(board)))), count';
    }
    var cells := EmptySpaces(board);
    SearchNode(b, depth, p, alpha, beta, pruning);
    best, count' := SearchCells(board, cells, depth, p, alpha, beta, count', pruning);
  }

  /**
    The loop of minimax over the open cells `cells` of a node that is not a
    leaf, with the node itself already counted in `count`.
   */
  method SearchCells(board: array2<Cell>, cells: seq<Coord>, depth: nat, p: Player, alpha: Score, beta: Score,
                     count: int, pruning: bool)
    returns (best: Move, count': int)
    requires board.Length0 == 4 && board.Length1 == 4 && depth >= 1
    requires cells == EmptyCells(Contents(board)) && AllInBounds(cells)
    modifies board
    ensures Contents(board) == old(Contents(board))
    ensures var s := Run(old(Contents(board)), depth, p, pruning, cells, |cells|, Window(NoMove(Worst(p)), alpha, beta));
            best == s.w.best && count' == count - 1 + s.nodes
    decreases depth, 0
  {
    ghost var b := Contents(board);
    best := NoMove(Worst(p));
    var a, bt := alpha, beta;
    ghost var start := Window(best, a, bt);
    count' := count;
    var i := 0;
    while i < |cells|
      invariant 0 <= i <= |cells|
      invariant Contents(board) == b
      invariant count' >= count
      invariant Run(b, depth, p, pruning, cells, i, start) == LoopState(Window(best, a, bt), count' - count + 1, false)
      decreases |cells| - i
    {
      best, a, bt, count' := VisitCell(board, b, cells, i, depth, p, pruning, start, best, a, bt, count' - count + 1, count');
      if pruning && Le(bt, a) {
        RunStopped(b, depth, p, pruning, cells, i + 1, |cells|, start);
        break;
      }
      i := i + 1;
    }
  }

  /**
    One iteration of the loop of minimax: try the cell `cells[i]`, then keep
    its score and narrow the window. `nodes` is the number of nodes the loop
    has counted so far, the node itself included.
   */
  method VisitCell(board: array2<Cell>, ghost b: Board, cells: seq<Coord>, i: nat, depth: nat, p: Player, pruning: bool,
                   ghost start: Window, best: Move, alpha: Score, beta: Score, ghost nodes: nat, count: int)
    returns (best': Move, alpha': Score, beta': Score, count': int)
    requires board.Length0 == 4 && board.Length1 == 4 && depth >= 1 && Contents(board) == b
    requires cells == EmptyCells(b) && AllInBounds(cells) && i < |cells|
    requires Run(b, depth, p, pruning, cells, i, start) == LoopState(Window(best, alpha, beta), nodes, false)
    modifies board
    ensures Contents(board) == b
    ensures count' >= count
    ensures var w' := Window(best', alpha', beta');
            Run(b, depth, p, pruning, cells, i + 1, start) == LoopState(w', nodes + (count' - count), CutOff(pruning, w'))
    decreases depth, 0, 0
  {
    var c := cells[i];
    EmptyCellAt(b, i);
    var reply;
    reply, count' := TryCell(board, c, depth, p, alpha, beta, count, pruning);
    best', alpha', beta' := Record(p, pruning, best, alpha, beta, Move(c.0, c.1, reply.score));
    RunStep(b, depth, p, pruning, cells, i, start, LoopState(Window(best, alpha, beta), nodes, false),
            Result(reply, count' - count), Window(best', alpha', beta'));
  }

  /**
    The score update of the loop of minimax: keep the child's move only when
    it is strictly better for `p`, and narrow the window when pruning.
   */
  method Record(p: Player, pruning: bool, best: Move, alpha: Score, beta: Score, score: Move)
    returns (best': Move, alpha': Score, beta': Score)
    ensures Window(best', alpha', beta') == Step(p, pruning, Window(best, alpha, beta), score)
  {
    best', alpha', beta' := best, alpha, beta;
    if p == O {
      if Lt(best.score, score.score) {
        best' := score;
      }
      if pruning {
        alpha' := Max(alpha, best'.score);
      }
    } else {
      if Lt(score.score, best.score) {
        best' := score;
      }
      if pruning {
        beta' := Min(beta, best'.score);
      }
    }
  }

  /**
    The body of the loop of minimax up to the score update: mark the cell,
    search one level deeper for the opponent, clear the cell.
   */
  method TryCell(board: array2<Cell>, c: Coord, depth: nat, p: Player, alpha: Score, beta: Score, count: int, pruning: bool)
    returns (child: Move, count': int)
    requires board.Length0 == 4 && board.Length1 == 4 && depth >= 1 && InBounds(c)
    requires Contents(board)[c.0][c.1] == Empty
    modifies board
    ensures Contents(board) == old(Contents(board))
    ensures var r := Search(Place(old(Contents(board)), c, p), depth - 1, Other(p), alpha, beta, pruning);
            child == r.move && count' == count + r.nodes
    decreases depth - 1, 2
  {
    ghost var b := Contents(board);
    SetCell(board, c, p);
    child, count' := Minimax(board, depth - 1, Other(p), alpha, beta, count, pruning);
    SetCell(board, c, Empty);
    PlaceUndo(b, c, p);
  }
}
