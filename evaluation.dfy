/**
 * The two static evaluators of the engine: the piece difference (black minus white) and
 * the positional score (every cell times its weight).  Both scan the board row by row,
 * column by column; the specification functions below sum in the same order.
 */
module Evaluation {
  import opened Constants

  /** The evaluator chosen for a run of the engine. */
  datatype Evaluator = PieceCount | PositionalWeight

  /** Number of cells among the first `n` of row `i` holding `v`. */
  function RowCount(b: seq<int>, i: int, n: int, v: int): nat
    requires |b| == CELLS && 0 <= i < BOARD_SIZE && 0 <= n <= BOARD_SIZE
  {
    if n == 0 then 0 else RowCount(b, i, n - 1, v) + (if b[Idx(i, n - 1)] == v then 1 else 0)
  }

  /** Number of cells among the first `m` rows holding `v`. */
  function Counted(b: seq<int>, m: int, v: int): nat
    requires |b| == CELLS && 0 <= m <= BOARD_SIZE
  {
    if m == 0 then 0 else Counted(b, m - 1, v) + RowCount(b, m - 1, BOARD_SIZE, v)
  }

  /** Black pieces minus white pieces. */
  function PieceDifference(b: seq<int>): int
    requires |b| == CELLS
  {
    Counted(b, BOARD_SIZE, MAX_PLAYER) - Counted(b, BOARD_SIZE, MIN_PLAYER)
  }

  /** Sum of cell times weight over the first `n` cells of row `i`. */
  function RowWeight(b: seq<int>, i: int, n: int): int
    requires |b| == CELLS && 0 <= i < BOARD_SIZE && 0 <= n <= BOARD_SIZE
  {
    if n == 0 then 0 else RowWeight(b, i, n - 1) + b[Idx(i, n - 1)] * WEIGHT_MASK[i][n - 1]
  }

  /** Sum of cell times weight over the first `m` rows. */
  function Weighted(b: seq<int>, m: int): int
    requires |b| == CELLS && 0 <= m <= BOARD_SIZE
  {
    if m == 0 then 0 else Weighted(b, m - 1) + RowWeight(b, m - 1, BOARD_SIZE)
  }

  /** The positional score of the whole board. */
  function PositionalScore(b: seq<int>): int
    requires |b| == CELLS
  {
    Weighted(b, BOARD_SIZE)
  }

  /** The score the evaluator `e` gives board `b`. */
  function Score(e: Evaluator, b: seq<int>): int
    requires |b| == CELLS
  {
    match e
    case PieceCount => PieceDifference(b)
    case PositionalWeight => PositionalScore(b)
  }

  /** Counts every cell holding MAX_PLAYER and every cell holding MIN_PLAYER; returns the difference. */
  method NumberOfPieces(board: array<int>) returns (score: int)
    requires board.Length == CELLS
    ensures score == PieceDifference(board[..])
  {
    var blackCount, whiteCount := 0, 0;
    for i := 0 to BOARD_SIZE
      invariant blackCount == Counted(board[..], i, MAX_PLAYER)
      invariant whiteCount == Counted(board[..], i, MIN_PLAYER)
    {
      for j := 0 to BOARD_SIZE
        invariant blackCount == Counted(board[..], i, MAX_PLAYER) + RowCount(board[..], i, j, MAX_PLAYER)
        invariant whiteCount == Counted(board[..], i, MIN_PLAYER) + RowCount(board[..], i, j, MIN_PLAYER)
      {
        if board[Idx(i, j)] == MAX_PLAYER {
          blackCount := blackCount + 1;
        } else if board[Idx(i, j)] == MIN_PLAYER {
          whiteCount := whiteCount + 1;
        }
      }
    }
    return blackCount - whiteCount;
  }

  /** Adds up cell times weight over the board. */
  method PositionalWeights(board: array<int>) returns (sum: int)
    requires board.Length == CELLS
    ensures sum == PositionalScore(board[..])
  {
    sum := 0;
    for i := 0 to BOARD_SIZE
      invariant sum == Weighted(board[..], i)
    {
      for j := 0 to BOARD_SIZE
        invariant sum == Weighted(board[..], i) + RowWeight(board[..], i, j)
      {
        sum := sum + board[Idx(i, j)] * WEIGHT_MASK[i][j];
      }
    }
  }

  /** Runs the evaluator `e` on `board`. */
  method Evaluate(e: Evaluator, board: array<int>) returns (score: int)
    requires board.Length == CELLS
    ensures score == Score(e, board[..])
  {
    match e
    case PieceCount =>
      score := NumberOfPieces(board);
    case PositionalWeight =>
      score := PositionalWeights(board);
  }

  // ----- The piece count agrees with a plain count of the board's cells -----

  lemma {:induction false} RowCountPrefix(b: seq<int>, i: int, n: int, v: int)
    requires |b| == CELLS && 0 <= i < BOARD_SIZE && 0 <= n <= BOARD_SIZE
    requires Counted(b, i, v) == multiset(b[..Idx(i, 0)])[v]
    ensures Counted(b, i, v) + RowCount(b, i, n, v) == multiset(b[..Idx(i, n)])[v]
  {
    if n > 0 {
      RowCountPrefix(b, i, n - 1, v);
      assert b[..Idx(i, n)] == b[..Idx(i, n - 1)] + [b[Idx(i, n - 1)]];
    }
  }

  lemma {:induction false} CountedPrefix(b: seq<int>, m: int, v: int)
    requires |b| == CELLS && 0 <= m <= BOARD_SIZE
    ensures Counted(b, m, v) == multiset(b[..m * BOARD_SIZE])[v]
  {
    if m > 0 {
      CountedPrefix(b, m - 1, v);
      RowCountPrefix(b, m - 1, BOARD_SIZE, v);
    }
  }

  /** The piece difference is the number of 1 cells minus the number of -1 cells. */
  lemma PieceDifferenceIsCount(b: seq<int>)
    requires |b| == CELLS
    ensures PieceDifference(b) == multiset(b)[MAX_PLAYER] as int - multiset(b)[MIN_PLAYER] as int
  {
    CountedPrefix(b, BOARD_SIZE, MAX_PLAYER);
    CountedPrefix(b, BOARD_SIZE, MIN_PLAYER);
    assert b[..BOARD_SIZE * BOARD_SIZE] == b;
  }

  // ----- Bounds -----

  lemma {:induction false} RowCountBound(b: seq<int>, i: int, n: int)
    requires |b| == CELLS && 0 <= i < BOARD_SIZE && 0 <= n <= BOARD_SIZE
    ensures RowCount(b, i, n, MAX_PLAYER) + RowCount(b, i, n, MIN_PLAYER) <= n
  {
    if n > 0 {
      RowCountBound(b, i, n - 1);
    }
  }

  lemma {:induction false} CountedBound(b: seq<int>, m: int)
    requires |b| == CELLS && 0 <= m <= BOARD_SIZE
    ensures Counted(b, m, MAX_PLAYER) + Counted(b, m, MIN_PLAYER) <= m * BOARD_SIZE
  {
    if m > 0 {
      CountedBound(b, m - 1);
      RowCountBound(b, m - 1, BOARD_SIZE);
    }
  }

  /** The piece difference lies in [-64, 64]. */
  lemma PieceDifferenceBound(b: seq<int>)
    requires |b| == CELLS
    ensures -CELLS <= PieceDifference(b) <= CELLS
  {
    CountedBound(b, BOARD_SIZE);
  }

  /** A cell in {-1, 0, 1} times a weight is the weight, its negation or 0. */
  lemma CellTimesWeight(c: int, w: int)
    requires -1 <= c <= 1
    ensures c * w == (if c == 1 then w else if c == -1 then -w else 0)
  {
  }

  lemma {:induction false} RowWeightBound(b: seq<int>, i: int, n: int)
    requires WellFormed(b) && 0 <= i < BOARD_SIZE && 0 <= n <= BOARD_SIZE
    ensures -AbsRow(i, n) <= RowWeight(b, i, n) <= AbsRow(i, n)
  {
    if n > 0 {
      RowWeightBound(b, i, n - 1);
      CellTimesWeight(b[Idx(i, n - 1)], WEIGHT_MASK[i][n - 1]);
    }
  }

  lemma {:induction false} WeightedBound(b: seq<int>, m: int)
    requires WellFormed(b) && 0 <= m <= BOARD_SIZE
    ensures -AbsRows(m) <= Weighted(b, m) <= AbsRows(m)
  {
    if m > 0 {
      WeightedBound(b, m - 1);
      RowWeightBound(b, m - 1, BOARD_SIZE);
    }
  }

  /** On a well-formed board the positional score lies in [-784, 784]. */
  lemma PositionalScoreBound(b: seq<int>)
    requires WellFormed(b)
    ensures -784 <= PositionalScore(b) <= 784
  {
    PositionalScoreAtMost(b);
    PositionalScoreAtLeast(b);
  }

  lemma PositionalScoreAtMost(b: seq<int>)
    requires WellFormed(b)
    ensures PositionalScore(b) <= 784
  {
    WeightedBound(b, BOARD_SIZE);
    WeightMass(BOARD_SIZE);
  }

  lemma PositionalScoreAtLeast(b: seq<int>)
    requires WellFormed(b)
    ensures -784 <= PositionalScore(b)
  {
    WeightedBound(b, BOARD_SIZE);
    WeightMass(BOARD_SIZE);
  }

  /** Every score of a well-formed board lies strictly between the sentinels -INF and INF. */
  lemma ScoreInsideSentinels(e: Evaluator, b: seq<int>)
    requires WellFormed(b)
    ensures -INF < -784 <= Score(e, b) <= 784 < INF
  {
    PieceDifferenceBound(b);
    PositionalScoreBound(b);
  }

  // ----- Colour swap -----

  /** The board with every piece's colour swapped. */
  function Swapped(b: seq<int>): (r: seq<int>)
    requires |b| == CELLS
    ensures |r| == CELLS
  {
    seq(CELLS, k requires 0 <= k < CELLS => -b[k])
  }

  lemma {:induction false} RowCountSwapped(b: seq<int>, i: int, n: int, v: int)
    requires |b| == CELLS && 0 <= i < BOARD_SIZE && 0 <= n <= BOARD_SIZE
    ensures RowCount(Swapped(b), i, n, v) == RowCount(b, i, n, -v)
  {
    if n > 0 {
      RowCountSwapped(b, i, n - 1, v);
    }
  }

  lemma {:induction false} CountedSwapped(b: seq<int>, m: int, v: int)
    requires |b| == CELLS && 0 <= m <= BOARD_SIZE
    ensures Counted(Swapped(b), m, v) == Counted(b, m, -v)
  {
    if m > 0 {
      CountedSwapped(b, m - 1, v);
      RowCountSwapped(b, m - 1, BOARD_SIZE, v);
    }
  }

  lemma {:induction false} RowWeightSwapped(b: seq<int>, i: int, n: int)
    requires |b| == CELLS && 0 <= i < BOARD_SIZE && 0 <= n <= BOARD_SIZE
    ensures RowWeight(Swapped(b), i, n) == -RowWeight(b, i, n)
  {
    if n > 0 {
      RowWeightSwapped(b, i, n - 1);
      var c, w := b[Idx(i, n - 1)], WEIGHT_MASK[i][n - 1];
      assert (-c) * w == -(c * w);
    }
  }

  lemma {:induction false} WeightedSwapped(b: seq<int>, m: int)
    requires |b| == CELLS && 0 <= m <= BOARD_SIZE
    ensures Weighted(Swapped(b), m) == -Weighted(b, m)
  {
    if m > 0 {
      WeightedSwapped(b, m - 1);
      RowWeightSwapped(b, m - 1, BOARD_SIZE);
    }
  }

  /** Swapping every piece's colour negates the score of either evaluator. */
  lemma ScoreSwapped(e: Evaluator, b: seq<int>)
    requires |b| == CELLS
    ensures Score(e, Swapped(b)) == -Score(e, b)
  {
    CountedSwapped(b, BOARD_SIZE, MAX_PLAYER);
    CountedSwapped(b, BOARD_SIZE, MIN_PLAYER);
    WeightedSwapped(b, BOARD_SIZE);
  }

  // ----- Boards with at most one piece -----

  /** The board whose only non-empty cell is (i, j), holding `v` (all empty when v == 0). */
  function LoneBoard(i: int, j: int, v: int): (r: seq<int>)
    requires InBounds(i, j)
    ensures |r| == CELLS
  {
    seq(CELLS, k requires 0 <= k < CELLS => if k == Idx(i, j) then v else EMPTY_CELL)
  }

  lemma {:induction false} RowWeightLone(i: int, j: int, v: int, r: int, n: int)
    requires InBounds(i, j) && 0 <= r < BOARD_SIZE && 0 <= n <= BOARD_SIZE
    ensures RowWeight(LoneBoard(i, j, v), r, n) == if r == i && j < n then v * WEIGHT_MASK[i][j] else 0
  {
    if n > 0 {
      RowWeightLone(i, j, v, r, n - 1);
      if r != i || n - 1 != j {
        assert Idx(r, n - 1) != Idx(i, j);
      }
    }
  }

  lemma {:induction false} WeightedLone(i: int, j: int, v: int, m: int)
    requires InBounds(i, j) && 0 <= m <= BOARD_SIZE
    ensures Weighted(LoneBoard(i, j, v), m) == if i < m then v * WEIGHT_MASK[i][j] else 0
  {
    if m > 0 {
      WeightedLone(i, j, v, m - 1);
      RowWeightLone(i, j, v, m - 1, BOARD_SIZE);
    }
  }

  lemma {:induction false} RowCountLone(i: int, j: int, v: int, r: int, n: int)
    requires InBounds(i, j) && IsPlayer(v) && 0 <= r < BOARD_SIZE && 0 <= n <= BOARD_SIZE
    ensures RowCount(LoneBoard(i, j, v), r, n, v) == if r == i && j < n then 1 else 0
    ensures RowCount(LoneBoard(i, j, v), r, n, -v) == 0
  {
    if n > 0 {
      RowCountLone(i, j, v, r, n - 1);
      if r != i || n - 1 != j {
        assert Idx(r, n - 1) != Idx(i, j);
      }
    }
  }

  lemma {:induction false} CountedLone(i: int, j: int, v: int, m: int)
    requires InBounds(i, j) && IsPlayer(v) && 0 <= m <= BOARD_SIZE
    ensures Counted(LoneBoard(i, j, v), m, v) == if i < m then 1 else 0
    ensures Counted(LoneBoard(i, j, v), m, -v) == 0
  {
    if m > 0 {
      CountedLone(i, j, v, m - 1);
      RowCountLone(i, j, v, m - 1, BOARD_SIZE);
    }
  }

  /** A single piece of colour v at (i, j) scores v for the piece count and v * weight(i, j) positionally. */
  lemma LonePiece(i: int, j: int, v: int)
    requires InBounds(i, j) && IsPlayer(v)
    ensures PieceDifference(LoneBoard(i, j, v)) == v
    ensures PositionalScore(LoneBoard(i, j, v)) == v * WEIGHT_MASK[i][j]
  {
    CountedLone(i, j, v, BOARD_SIZE);
    WeightedLone(i, j, v, BOARD_SIZE);
  }

  /** A lone black piece scores 99 in a corner and -24 diagonally next to one. */
  lemma LoneCornerScores()
    ensures PositionalScore(LoneBoard(0, 0, MAX_PLAYER)) == 99
    ensures PositionalScore(LoneBoard(1, 1, MAX_PLAYER)) == -24
  {
    LonePiece(0, 0, MAX_PLAYER);
    LonePiece(1, 1, MAX_PLAYER);
  }

  /** The empty board scores 0 under both evaluators. */
  lemma EmptyBoardScoresZero(e: Evaluator)
    ensures Score(e, LoneBoard(0, 0, EMPTY_CELL)) == 0
  {
    WeightedLone(0, 0, EMPTY_CELL, BOARD_SIZE);
    EmptyCountZero(BOARD_SIZE, MAX_PLAYER);
    EmptyCountZero(BOARD_SIZE, MIN_PLAYER);
  }

  lemma {:induction false} EmptyCountZero(m: int, v: int)
    requires 0 <= m <= BOARD_SIZE && v != EMPTY_CELL
    ensures Counted(LoneBoard(0, 0, EMPTY_CELL), m, v) == 0
  {
    if m > 0 {
      EmptyCountZero(m - 1, v);
      EmptyRowCountZero(m - 1, BOARD_SIZE, v);
    }
  }

  lemma {:induction false} EmptyRowCountZero(r: int, n: int, v: int)
    requires 0 <= r < BOARD_SIZE && 0 <= n <= BOARD_SIZE && v != EMPTY_CELL
    ensures RowCount(LoneBoard(0, 0, EMPTY_CELL), r, n, v) == 0
  {
    if n > 0 {
      EmptyRowCountZero(r, n - 1, v);
    }
  }
}
