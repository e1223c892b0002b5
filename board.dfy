/**
  The 4x4 board: cell states, the ten lines (four rows, four columns, two
  diagonals), winner detection, the line-counting heuristic and the
  enumeration of open cells.
 */
module BoardModel {

  datatype Cell = Empty | X | O

  /** A player is the mark it places. */
  type Player = c: Cell | c != Empty witness X

  /** `'O' if player == 'X' else 'X'` */
  function Other(p: Player): (q: Player)
    ensures q != p
  {
    if p == X then O else X
  }

  /** A board as the list of rows; cell (i, j) is b[i][j]. */
  type Board = seq<seq<Cell>>

  type Coord = (int, int)

  predicate WellFormed(b: Board) {
    |b| == 4 && forall i | 0 <= i < 4 :: |b[i]| == 4
  }

  predicate InBounds(c: Coord) {
    0 <= c.0 < 4 && 0 <= c.1 < 4
  }

  /** Position of a cell in row-major order. */
  function Index(c: Coord): int {
    4 * c.0 + c.1
  }

  /** Two boards with the same cells are the same board. */
  lemma {:induction false} BoardsEqual(a: Board, b: Board)
    requires WellFormed(a) && WellFormed(b)
    requires forall i, j | 0 <= i < 4 && 0 <= j < 4 :: a[i][j] == b[i][j]
    ensures a == b
  {
    forall i | 0 <= i < 4
      ensures a[i] == b[i]
    {
      assert forall j | 0 <= j < 4 :: a[i][j] == b[i][j];
    }
  }

  /** `board[x][y] = m` on a board value. */
  function Place(b: Board, c: Coord, m: Cell): (r: Board)
    requires WellFormed(b) && InBounds(c)
    ensures WellFormed(r) && r[c.0][c.1] == m
    ensures forall i, j {:trigger r[i][j]} | 0 <= i < 4 && 0 <= j < 4 && (i, j) != c :: r[i][j] == b[i][j]
  {
    b[c.0 := b[c.0][c.1 := m]]
  }

  /** Clearing a cell that was open before restores the board. */
  lemma PlaceUndo(b: Board, c: Coord, m: Cell)
    requires WellFormed(b) && InBounds(c) && b[c.0][c.1] == Empty
    ensures Place(Place(b, c, m), c, Empty) == b
  {
    BoardsEqual(Place(Place(b, c, m), c, Empty), b);
  }

  // ---------------------------------------------------------------------------
  // Lines
  // ---------------------------------------------------------------------------

  function Row(b: Board, i: int): seq<Cell>
    requires WellFormed(b) && 0 <= i < 4
  {
    [b[i][0], b[i][1], b[i][2], b[i][3]]
  }

  function Column(b: Board, j: int): seq<Cell>
    requires WellFormed(b) && 0 <= j < 4
  {
    [b[0][j], b[1][j], b[2][j], b[3][j]]
  }

  function Diagonal(b: Board): seq<Cell>
    requires WellFormed(b)
  {
    [b[0][0], b[1][1], b[2][2], b[3][3]]
  }

  function AntiDiagonal(b: Board): seq<Cell>
    requires WellFormed(b)
  {
    [b[0][3], b[1][2], b[2][1], b[3][0]]
  }

  /**
    Line k of the ten, in the order the heuristic visits them: row 0,
    column 0, row 1, column 1, ..., row 3, column 3, the main diagonal, the
    anti-diagonal.
   */
  function LineAt(b: Board, k: int): (line: seq<Cell>)
    requires WellFormed(b) && 0 <= k < 10
    ensures |line| == 4
  {
    match k
    case 0 => Row(b, 0)
    case 1 => Column(b, 0)
    case 2 => Row(b, 1)
    case 3 => Column(b, 1)
    case 4 => Row(b, 2)
    case 5 => Column(b, 2)
    case 6 => Row(b, 3)
    case 7 => Column(b, 3)
    case 8 => Diagonal(b)
    case _ => AntiDiagonal(b)
  }

  // ---------------------------------------------------------------------------
  // Winner detection
  // ---------------------------------------------------------------------------

  /** `all(cell == p for cell in line)` */
  predicate AllAre(line: seq<Cell>, p: Cell)
    requires |line| == 4
  {
    line[0] == p && line[1] == p && line[2] == p && line[3] == p
  }

  /**
    check_winner: all four cells of one of the rows, one of the columns, the
    main diagonal or the anti-diagonal hold `p`, in that order.
   */
  predicate HasWon(b: Board, p: Player)
    requires WellFormed(b)
  {
    || (b[0][0] == p && b[0][1] == p && b[0][2] == p && b[0][3] == p)
    || (b[1][0] == p && b[1][1] == p && b[1][2] == p && b[1][3] == p)
    || (b[2][0] == p && b[2][1] == p && b[2][2] == p && b[2][3] == p)
    || (b[3][0] == p && b[3][1] == p && b[3][2] == p && b[3][3] == p)
    || (b[0][0] == p && b[1][0] == p && b[2][0] == p && b[3][0] == p)
    || (b[0][1] == p && b[1][1] == p && b[2][1] == p && b[3][1] == p)
    || (b[0][2] == p && b[1][2] == p && b[2][2] == p && b[3][2] == p)
    || (b[0][3] == p && b[1][3] == p && b[2][3] == p && b[3][3] == p)
    || (b[0][0] == p && b[1][1] == p && b[2][2] == p && b[3][3] == p)
    || (b[0][3] == p && b[1][2] == p && b[2][1] == p && b[3][0] == p)
  }

  /**
    check_winner as its loops state it: all four cells of some row i, of
    some column j, of the main diagonal or of the anti-diagonal hold `p`.
   */
  lemma HasWonCells(b: Board, p: Player)
    requires WellFormed(b)
    ensures HasWon(b, p) <==>
      || (exists i | 0 <= i < 4 :: b[i][0] == p && b[i][1] == p && b[i][2] == p && b[i][3] == p)
      || (exists j | 0 <= j < 4 :: b[0][j] == p && b[1][j] == p && b[2][j] == p && b[3][j] == p)
      || (b[0][0] == p && b[1][1] == p && b[2][2] == p && b[3][3] == p)
      || (b[0][3] == p && b[1][2] == p && b[2][1] == p && b[3][0] == p)
  {
    if exists i | 0 <= i < 4 :: b[i][0] == p && b[i][1] == p && b[i][2] == p && b[i][3] == p {
      var i :| 0 <= i < 4 && b[i][0] == p && b[i][1] == p && b[i][2] == p && b[i][3] == p;
      assert i == 0 || i == 1 || i == 2 || i == 3;
    }
    if exists j | 0 <= j < 4 :: b[0][j] == p && b[1][j] == p && b[2][j] == p && b[3][j] == p {
      var j :| 0 <= j < 4 && b[0][j] == p && b[1][j] == p && b[2][j] == p && b[3][j] == p;
      assert j == 0 || j == 1 || j == 2 || j == 3;
    }
  }

  /** A player has won exactly when one of the ten lines of the heuristic is all `p`. */
  lemma HasWonLines(b: Board, p: Player)
    requires WellFormed(b)
    ensures HasWon(b, p) <==> exists k | 0 <= k < 10 :: AllAre(LineAt(b, k), p)
  {
    assert LineAt(b, 0) == Row(b, 0) && LineAt(b, 2) == Row(b, 1);
    assert LineAt(b, 4) == Row(b, 2) && LineAt(b, 6) == Row(b, 3);
    assert LineAt(b, 1) == Column(b, 0) && LineAt(b, 3) == Column(b, 1);
    assert LineAt(b, 5) == Column(b, 2) && LineAt(b, 7) == Column(b, 3);
    assert LineAt(b, 8) == Diagonal(b) && LineAt(b, 9) == AntiDiagonal(b);
  }

  // ---------------------------------------------------------------------------
  // Heuristic evaluation
  // ---------------------------------------------------------------------------

  /** `line.count(c)` on a line of four cells. */
  function Count(line: seq<Cell>, c: Cell): (n: nat)
    requires |line| == 4
    ensures n <= 4
  {
    (if line[0] == c then 1 else 0) + (if line[1] == c then 1 else 0) +
    (if line[2] == c then 1 else 0) + (if line[3] == c then 1 else 0)
  }

  /** evaluate_line: points for O (positive) or X (negative) on a line of four cells. */
  function EvaluateLine(line: seq<Cell>): int
    requires |line| == 4
  {
    CountScore(Count(line, O), Count(line, X), Count(line, Empty))
  }

  /** The branches of evaluate_line, on the numbers of O, X and empty cells of the line. */
  function CountScore(o: int, x: int, e: int): int {
    if o == 4 then 1000
    else if x == 4 then -1000
    else if o == 3 && e == 1 then 100
    else if x == 3 && e == 1 then -100
    else if o == 2 && e == 2 then 10
    else if x == 2 && e == 2 then -10
    else 0
  }

  /** The line scores of lines k, ..., 9 added up. */
  function SumFrom(b: Board, k: nat): int
    requires WellFormed(b) && k <= 10
    decreases 10 - k
  {
    if k == 10 then 0 else EvaluateLine(LineAt(b, k)) + SumFrom(b, k + 1)
  }

  /** evaluate: the sum of the line scores of the ten lines, from O's point of view. */
  function Evaluate(b: Board): int
    requires WellFormed(b)
  {
    SumFrom(b, 0)
  }

  /**
    evaluate_line takes one of seven values; a positive score means the line
    holds no X and a negative one that it holds no O.
   */
  lemma EvaluateLineCases(line: seq<Cell>)
    requires |line| == 4
    ensures EvaluateLine(line) in {0, 10, -10, 100, -100, 1000, -1000}
    ensures EvaluateLine(line) > 0 ==> X !in line
    ensures EvaluateLine(line) < 0 ==> O !in line
    ensures EvaluateLine(line) == 1000 <==> AllAre(line, O)
    ensures EvaluateLine(line) == -1000 <==> AllAre(line, X)
  {
    assert line == [line[0], line[1], line[2], line[3]];
  }

  // ---------------------------------------------------------------------------
  // Exchanging the two players
  // ---------------------------------------------------------------------------

  function SwapCell(c: Cell): Cell {
    match c
    case Empty => Empty
    case X => O
    case O => X
  }

  /** A line of four cells with X and O exchanged. */
  function SwapLine(line: seq<Cell>): (r: seq<Cell>)
    requires |line| == 4
    ensures |r| == 4
  {
    [SwapCell(line[0]), SwapCell(line[1]), SwapCell(line[2]), SwapCell(line[3])]
  }

  function SwapBoard(b: Board): (r: Board)
    requires WellFormed(b)
    ensures WellFormed(r)
    ensures forall i, j | 0 <= i < 4 && 0 <= j < 4 :: r[i][j] == SwapCell(b[i][j])
  {
    [SwapLine(b[0]), SwapLine(b[1]), SwapLine(b[2]), SwapLine(b[3])]
  }

  /** The branches of evaluate_line are mutually exclusive, so exchanging X and O negates the score. */
  lemma EvaluateLineSwap(line: seq<Cell>)
    requires |line| == 4
    ensures EvaluateLine(SwapLine(line)) == -EvaluateLine(line)
  {
    var s := SwapLine(line);
    SwapCellCounts(line[0]);
    SwapCellCounts(line[1]);
    SwapCellCounts(line[2]);
    SwapCellCounts(line[3]);
    assert Count(s, O) == Count(line, X) && Count(s, X) == Count(line, O) && Count(s, Empty) == Count(line, Empty);
    CountScoreSwap(Count(line, O), Count(line, X), Count(line, Empty));
  }

  /** A cell counts once, for exactly one of O, X and Empty; exchanging the players exchanges its counts. */
  lemma SwapCellCounts(c: Cell)
    ensures (if SwapCell(c) == O then 1 else 0) == (if c == X then 1 else 0)
    ensures (if SwapCell(c) == X then 1 else 0) == (if c == O then 1 else 0)
    ensures (if SwapCell(c) == Empty then 1 else 0) == (if c == Empty then 1 else 0)
    ensures (if c == O then 1 else 0) + (if c == X then 1 else 0) + (if c == Empty then 1 else 0) == 1
  {
  }

  /** With four cells in all, the tests for O and for X never both apply. */
  lemma CountScoreSwap(o: nat, x: nat, e: nat)
    requires o + x + e == 4
    ensures CountScore(x, o, e) == -CountScore(o, x, e)
  {
  }

  /** Line k of the exchanged board is line k with X and O exchanged. */
  lemma SwapLineAt(b: Board, k: int)
    requires WellFormed(b) && 0 <= k < 10
    ensures LineAt(SwapBoard(b), k) == SwapLine(LineAt(b, k))
  {
    var s := SwapBoard(b);
    forall i | 0 <= i < 4
      ensures Row(s, i) == SwapLine(Row(b, i)) && Column(s, i) == SwapLine(Column(b, i))
    {
    }
    assert Diagonal(s) == SwapLine(Diagonal(b));
    assert AntiDiagonal(s) == SwapLine(AntiDiagonal(b));
  }

  lemma {:induction false} SumFromSwap(b: Board, k: nat)
    requires WellFormed(b) && k <= 10
    ensures SumFrom(SwapBoard(b), k) == -SumFrom(b, k)
    decreases 10 - k
  {
    if k < 10 {
      SwapLineAt(b, k);
      EvaluateLineSwap(LineAt(b, k));
      SumFromSwap(b, k + 1);
    }
  }

  /** The heuristic is antisymmetric: exchanging every X and O negates evaluate. */
  lemma EvaluateSwap(b: Board)
    requires WellFormed(b)
    ensures Evaluate(SwapBoard(b)) == -Evaluate(b)
  {
    SumFromSwap(b, 0);
  }

  lemma {:induction false} SumFromBound(b: Board, k: nat)
    requires WellFormed(b) && k <= 10
    ensures -1000 * (10 - k) <= SumFrom(b, k) <= 1000 * (10 - k)
    decreases 10 - k
  {
    if k < 10 {
      EvaluateLineCases(LineAt(b, k));
      SumFromBound(b, k + 1);
    }
  }

  /** evaluate is bounded by ten lines of 1000 points each. */
  lemma EvaluateBound(b: Board)
    requires WellFormed(b)
    ensures -10000 <= Evaluate(b) <= 10000
  {
    SumFromBound(b, 0);
  }

  /** A player has won exactly when one of the ten lines scores the full 1000 points for it. */
  lemma WinIffFullLine(b: Board, p: Player)
    requires WellFormed(b)
    ensures HasWon(b, p) <==>
            exists k | 0 <= k < 10 :: EvaluateLine(LineAt(b, k)) == (if p == O then 1000 else -1000)
  {
    HasWonLines(b, p);
    forall k | 0 <= k < 10
      ensures AllAre(LineAt(b, k), p) <==> EvaluateLine(LineAt(b, k)) == (if p == O then 1000 else -1000)
    {
      EvaluateLineCases(LineAt(b, k));
    }
  }

  // ---------------------------------------------------------------------------
  // Open cells
  // ---------------------------------------------------------------------------

  /** The open cells (i, 0), ..., (i, j - 1) of row i, left to right. */
  function OpenInRow(b: Board, i: int, j: nat): seq<Coord>
    requires WellFormed(b) && 0 <= i < 4 && j <= 4
  {
    if j == 0 then [] else OpenInRow(b, i, j - 1) + (if b[i][j - 1] == Empty then [(i, j - 1)] else [])
  }

  /** The open cells of rows 0, ..., i - 1, in row-major order. */
  function OpenInRows(b: Board, i: nat): seq<Coord>
    requires WellFormed(b) && i <= 4
  {
    if i == 0 then [] else OpenInRows(b, i - 1) + OpenInRow(b, i - 1, 4)
  }

  /** empty_spaces as a value: every open cell once, in row-major order. */
  function EmptyCells(b: Board): seq<Coord>
    requires WellFormed(b)
  {
    OpenInRows(b, 4)
  }

  lemma {:induction false} OpenInRowExact(b: Board, i: int, j: nat)
    requires WellFormed(b) && 0 <= i < 4 && j <= 4
    ensures forall t | 0 <= t < |OpenInRow(b, i, j)| ::
      var c := OpenInRow(b, i, j)[t]; c.0 == i && 0 <= c.1 < j && b[i][c.1] == Empty
    ensures forall s, t | 0 <= s < t < |OpenInRow(b, i, j)| :: OpenInRow(b, i, j)[s].1 < OpenInRow(b, i, j)[t].1
    ensures forall y | 0 <= y < j && b[i][y] == Empty :: (i, y) in OpenInRow(b, i, j)
  {
    if j > 0 {
      OpenInRowExact(b, i, j - 1);
    }
  }

  lemma {:induction false} OpenInRowsExact(b: Board, i: nat)
    requires WellFormed(b) && i <= 4
    ensures forall t | 0 <= t < |OpenInRows(b, i)| ::
      var c := OpenInRows(b, i)[t]; InBounds(c) && c.0 < i && b[c.0][c.1] == Empty
    ensures forall s, t | 0 <= s < t < |OpenInRows(b, i)| :: Index(OpenInRows(b, i)[s]) < Index(OpenInRows(b, i)[t])
    ensures forall x, y | 0 <= x < i && 0 <= y < 4 && b[x][y] == Empty :: (x, y) in OpenInRows(b, i)
  {
    if i > 0 {
      OpenInRowsExact(b, i - 1);
      OpenInRowExact(b, i - 1, 4);
      var p, q := OpenInRows(b, i - 1), OpenInRow(b, i - 1, 4);
      assert OpenInRows(b, i) == p + q;
      assert forall t | |p| <= t < |p| + |q| :: (p + q)[t] == q[t - |p|];
    }
  }

  /** Every listed open cell lies on the board and holds " ". */
  lemma EmptyCellsOpen(b: Board)
    requires WellFormed(b)
    ensures forall t | 0 <= t < |EmptyCells(b)| ::
      var c := EmptyCells(b)[t]; InBounds(c) && b[c.0][c.1] == Empty
  {
    OpenInRowsExact(b, 4);
  }

  /** One entry of the open-cell list is an open cell. */
  lemma EmptyCellAt(b: Board, t: int)
    requires WellFormed(b) && 0 <= t < |EmptyCells(b)|
    ensures InBounds(EmptyCells(b)[t])
    ensures b[EmptyCells(b)[t].0][EmptyCells(b)[t].1] == Empty
  {
    EmptyCellsOpen(b);
  }

  /**
    The open cells are exactly the cells holding " ", each listed once, in
    strictly increasing row-major order.
   */
  lemma EmptyCellsExact(b: Board)
    requires WellFormed(b)
    ensures forall t | 0 <= t < |EmptyCells(b)| ::
      var c := EmptyCells(b)[t]; InBounds(c) && b[c.0][c.1] == Empty
    ensures forall i, j | 0 <= i < 4 && 0 <= j < 4 :: (i, j) in EmptyCells(b) <==> b[i][j] == Empty
    ensures forall s, t | 0 <= s < t < |EmptyCells(b)| :: Index(EmptyCells(b)[s]) < Index(EmptyCells(b)[t])
  {
    OpenInRowsExact(b, 4);
    forall i, j | 0 <= i < 4 && 0 <= j < 4 && (i, j) in EmptyCells(b)
      ensures b[i][j] == Empty
    {
      var t :| 0 <= t < |EmptyCells(b)| && EmptyCells(b)[t] == (i, j);
    }
  }

  /** The full-board test of the game loop: no open cell left. */
  lemma FullIffNoOpenCell(b: Board)
    requires WellFormed(b)
    ensures EmptyCells(b) == [] <==> forall i, j | 0 <= i < 4 && 0 <= j < 4 :: b[i][j] != Empty
  {
    EmptyCellsExact(b);
    var cs := EmptyCells(b);
    if cs != [] {
      assert b[cs[0].0][cs[0].1] == Empty;
    }
  }

  lemma {:induction false} PlaceInRow(b: Board, c: Coord, m: Cell, i: int, j: nat)
    requires WellFormed(b) && InBounds(c) && b[c.0][c.1] == Empty && m != Empty
    requires 0 <= i < 4 && j <= 4
    ensures |OpenInRow(Place(b, c, m), i, j)| == |OpenInRow(b, i, j)| - (if c.0 == i && c.1 < j then 1 else 0)
  {
    if j > 0 {
      PlaceInRow(b, c, m, i, j - 1);
    }
  }

  lemma {:induction false} PlaceInRows(b: Board, c: Coord, m: Cell, i: nat)
    requires WellFormed(b) && InBounds(c) && b[c.0][c.1] == Empty && m != Empty && i <= 4
    ensures |OpenInRows(Place(b, c, m), i)| == |OpenInRows(b, i)| - (if c.0 < i then 1 else 0)
  {
    if i > 0 {
      PlaceInRows(b, c, m, i - 1);
      PlaceInRow(b, c, m, i - 1, 4);
    }
  }

  /** Marking an open cell leaves exactly one open cell fewer. */
  lemma PlaceRemovesOpenCell(b: Board, c: Coord, m: Cell)
    requires WellFormed(b) && InBounds(c) && b[c.0][c.1] == Empty && m != Empty
    ensures |EmptyCells(Place(b, c, m))| == |EmptyCells(b)| - 1
  {
    PlaceInRows(b, c, m, 4);
  }

  // ---------------------------------------------------------------------------
  // The mutable board
  // ---------------------------------------------------------------------------

  /** The value held by a 4x4 array. */
  function Contents(a: array2<Cell>): (b: Board)
    requires a.Length0 == 4 && a.Length1 == 4
    reads a
    ensures WellFormed(b)
    ensures forall i, j | 0 <= i < 4 && 0 <= j < 4 :: b[i][j] == a[i, j]
  {
    seq(4, i requires 0 <= i < 4 reads a => seq(4, j requires 0 <= j < 4 reads a => a[i, j]))
  }

  /** `board[x][y] = m` on the mutable board. */
  method SetCell(a: array2<Cell>, c: Coord, m: Cell)
    requires a.Length0 == 4 && a.Length1 == 4 && InBounds(c)
    modifies a
    ensures Contents(a) == Place(old(Contents(a)), c, m)
  {
    ghost var b := Contents(a);
    a[c.0, c.1] := m;
    BoardsEqual(Contents(a), Place(b, c, m));
  }

  /** empty_spaces: the nested loops that collect the open cells in row-major order. */
  method EmptySpaces(a: array2<Cell>) returns (spaces: seq<Coord>)
    requires a.Length0 == 4 && a.Length1 == 4
    ensures spaces == EmptyCells(Contents(a))
  {
    ghost var b := Contents(a);
    spaces := [];
    for i := 0 to 4
      invariant spaces == OpenInRows(b, i)
    {
      for j := 0 to 4
        invariant spaces == OpenInRows(b, i) + OpenInRow(b, i, j)
      {
        if a[i, j] == Empty {
          spaces := spaces + [(i, j)];
        }
      }
    }
  }
}
