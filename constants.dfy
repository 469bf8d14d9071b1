/** Constants, tables and board geometry shared by the Reversi engine (ReversiGame.hpp). */
module Constants {

  const BOARD_SIZE: int := 8
  const CELLS: int := 64
  const MAX_PLAYER: int := 1
  const EMPTY_CELL: int := 0
  const MIN_PLAYER: int := -1
  const INF: int := 1000000
  const DIRECTION: int := 8

  /** Task codes; the log header and the search selection depend on them. */
  const MINIMAX: int := 1
  const ALPHA_BETA_PIECE: int := 2
  const ALPHA_BETA_WEIGHT: int := 3

  /** The eight compass steps, in the order the move rule scans them. */
  const DIRECTIONS: seq<(int, int)> :=
    [(0, 1), (0, -1), (1, 0), (-1, 0), (1, 1), (1, -1), (-1, 1), (-1, -1)]

  /** Positional weights: corners are worth most, the cells next to corners least. */
  const WEIGHT_MASK: seq<seq<int>> :=
    [ [ 99,  -8,  8,  6,  6,  8,  -8, 99],
      [ -8, -24, -4, -3, -3, -4, -24, -8],
      [  8,  -4,  7,  4,  4,  7,  -4,  8],
      [  6,  -3,  4,  0,  0,  4,  -3,  6],
      [  6,  -3,  4,  0,  0,  4,  -3,  6],
      [  8,  -4,  7,  4,  4,  7,  -4,  8],
      [ -8, -24, -4, -3, -3, -4, -24, -8],
      [ 99,  -8,  8,  6,  6,  8,  -8, 99] ]

  predicate IsPlayer(p: int) {
    p == MAX_PLAYER || p == MIN_PLAYER
  }

  predicate InBounds(x: int, y: int) {
    0 <= x < 8 && 0 <= y < 8
  }

  /** Row-major position of cell (x, y) in the flattened 8x8 board. */
  function Idx(x: int, y: int): int {
    x * 8 + y
  }

  /** A board with every cell EMPTY_CELL, MAX_PLAYER or MIN_PLAYER. */
  predicate WellFormed(b: seq<int>) {
    |b| == CELLS && forall c :: 0 <= c < |b| ==> -1 <= b[c] <= 1
  }

  /** The step `d` taken `k` times from `x`: `x + k * d` for `d` in {-1, 0, 1}, kept linear. */
  function Along(x: int, k: int, d: int): int {
    if d > 0 then x + k else if d < 0 then x - k else x
  }

  predicate IsUnitStep(dx: int, dy: int) {
    -1 <= dx <= 1 && -1 <= dy <= 1 && (dx != 0 || dy != 0)
  }

  function Abs(v: int): (r: int)
    ensures r >= 0 && (r == v || r == -v)
  {
    if v < 0 then -v else v
  }

  function Max(a: int, b: int): (r: int)
    ensures r >= a && r >= b && (r == a || r == b)
  {
    if a < b then b else a
  }

  function Min(a: int, b: int): (r: int)
    ensures r <= a && r <= b && (r == a || r == b)
  {
    if a < b then a else b
  }

  lemma AlongIsProduct(x: int, k: int, d: int)
    requires -1 <= d <= 1
    ensures x + k * d == Along(x, k, d)
  {
    if d == 1 {
      assert k * d == k;
    } else if d == -1 {
      assert k * d == -k;
    } else {
      assert k * d == 0;
    }
  }

  lemma AlongNext(x: int, k: int, d: int)
    requires -1 <= d <= 1
    ensures Along(x, k + 1, d) == Along(x, k, d) + d
  {
  }

  /** MAX_PLAYER and MIN_PLAYER are each other's negation, and EMPTY_CELL is neither. */
  lemma PlayerEncoding(p: int)
    requires IsPlayer(p)
    ensures IsPlayer(-p) && -p != p && -p != EMPTY_CELL
    ensures p == MAX_PLAYER <==> -p == MIN_PLAYER
  {
  }

  /** The direction table holds eight distinct unit steps, closed under negation. */
  lemma DirectionTable()
    ensures |DIRECTIONS| == DIRECTION
    ensures forall i :: 0 <= i < |DIRECTIONS| ==> IsUnitStep(DIRECTIONS[i].0, DIRECTIONS[i].1)
    ensures forall i, j :: 0 <= i < j < |DIRECTIONS| ==> DIRECTIONS[i] != DIRECTIONS[j]
    ensures forall i :: 0 <= i < |DIRECTIONS| ==> (-DIRECTIONS[i].0, -DIRECTIONS[i].1) in DIRECTIONS
  {
  }

  function Reverse<T>(s: seq<T>): (r: seq<T>)
    ensures |r| == |s| && forall k :: 0 <= k < |s| ==> r[k] == s[|s| - 1 - k]
  {
    seq(|s|, k requires 0 <= k < |s| => s[|s| - 1 - k])
  }

  /** The weight table mirrored along its main diagonal. */
  function Transpose(m: seq<seq<int>>): (r: seq<seq<int>>)
    requires |m| == 8 && forall i :: 0 <= i < 8 ==> |m[i]| == 8
    ensures |r| == 8 && forall i :: 0 <= i < 8 ==> |r[i]| == 8
    ensures forall i, j :: 0 <= i < 8 && 0 <= j < 8 ==> r[i][j] == m[j][i]
  {
    seq(8, i requires 0 <= i < 8 => seq(8, j requires 0 <= j < 8 => m[j][i]))
  }

  /** The weight table is an 8 x 8 grid. */
  lemma WeightShape()
    ensures |WEIGHT_MASK| == 8 && forall i :: 0 <= i < 8 ==> |WEIGHT_MASK[i]| == 8
  {
  }

  /** Listing the rows of the weight table bottom-up gives the same table. */
  lemma WeightRowsMirrored()
    ensures Reverse(WEIGHT_MASK) == WEIGHT_MASK
  {
  }

  /** Reading every row of the weight table right to left gives the same row. */
  lemma WeightColumnsMirrored()
    ensures forall i :: 0 <= i < 8 ==> Reverse(WEIGHT_MASK[i]) == WEIGHT_MASK[i]
  {
    forall i | 0 <= i < 8
      ensures Reverse(WEIGHT_MASK[i]) == WEIGHT_MASK[i]
    {
      RowMirrored(i);
    }
  }

  lemma RowMirrored(i: int)
    requires 0 <= i < 8
    ensures Reverse(WEIGHT_MASK[i]) == WEIGHT_MASK[i]
  {
    var row := WEIGHT_MASK[i];
    assert |row| == 8;
    assert forall k :: 0 <= k < 8 ==> row[k] == row[7 - k];
  }

  /** The weight table is symmetric about its main diagonal. */
  lemma WeightTransposed()
    ensures Transpose(WEIGHT_MASK) == WEIGHT_MASK
  {
    WeightShape();
    var t := Transpose(WEIGHT_MASK);
    forall i | 0 <= i < 8
      ensures t[i] == WEIGHT_MASK[i]
    {
      ColumnIsRow(i);
    }
  }

  /** Column i of the weight table, read top-down, is row i. */
  lemma ColumnIsRow(i: int)
    requires 0 <= i < 8
    ensures forall j :: 0 <= j < 8 ==> WEIGHT_MASK[j][i] == WEIGHT_MASK[i][j]
  {
  }

  /** Corners weigh 99 and the diagonal neighbours of corners weigh -24. */
  lemma WeightCorners()
    ensures WEIGHT_MASK[0][0] == 99 && WEIGHT_MASK[0][7] == 99
    ensures WEIGHT_MASK[7][0] == 99 && WEIGHT_MASK[7][7] == 99
    ensures WEIGHT_MASK[1][1] == -24 && WEIGHT_MASK[1][6] == -24
    ensures WEIGHT_MASK[6][1] == -24 && WEIGHT_MASK[6][6] == -24
  {
  }

  /** Sum of |weight| over the first `n` cells of row `i`. */
  function AbsRow(i: int, n: int): (r: int)
    requires 0 <= i < 8 && 0 <= n <= 8
    ensures r >= 0
  {
    if n == 0 then 0 else AbsRow(i, n - 1) + Abs(WEIGHT_MASK[i][n - 1])
  }

  /** Sum of |weight| over the first `n` rows. */
  function AbsRows(n: int): (r: int)
    requires 0 <= n <= 8
    ensures r >= 0
  {
    if n == 0 then 0 else AbsRows(n - 1) + AbsRow(n - 1, 8)
  }

  /** The absolute weights add up to 784, far below the sentinel INF. */
  lemma WeightMass(n: int)
    requires n == BOARD_SIZE
    ensures AbsRows(n) == 784 < INF
  {
    assert AbsRow(0, 8) == 242;
    assert AbsRow(1, 8) == 78;
    assert AbsRow(2, 8) == 46;
    assert AbsRow(3, 8) == 26;
    assert AbsRow(4, 8) == 26;
    assert AbsRow(5, 8) == 46;
    assert AbsRow(6, 8) == 78;
    assert AbsRow(7, 8) == 242;
  }
}
