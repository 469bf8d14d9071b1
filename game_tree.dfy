/**
 * The game tree both searches walk, as pure functions over board values.
 *
 * `LegalMoves` lists a side's legal moves in the row-major order the searches collect them.
 * `Value` is the reference: the evaluation below the depth limit or at a side without a
 * move, otherwise the best child value for the side to move (largest for MAX, smallest for
 * MIN).  `Minimax` and `AlphaBeta` follow the two searches step by step, trace included;
 * the lemmas tie them to `Value`.
 */
module GameTree {
  import opened Constants
  import opened MoveRules
  import opened Evaluation
  import opened Trace

  /** A cell as (row, column). */
  type Move = (int, int)

  predicate AllOnBoard(ms: seq<Move>) {
    forall k :: 0 <= k < |ms| ==> InBounds(ms[k].0, ms[k].1)
  }

  /** Row-major rank of a move: the order in which the searches try moves. */
  function Rank(m: Move): int {
    Idx(m.0, m.1)
  }

  // ----- Move generation -----

  /** The legal moves of `p` in row `i` among its first `n` columns, left to right. */
  function RowMoves(b: seq<int>, p: int, i: int, n: int): (r: seq<Move>)
    requires |b| == CELLS && 0 <= i < BOARD_SIZE && 0 <= n <= BOARD_SIZE
    ensures forall k :: 0 <= k < |r| ==> r[k].0 == i && 0 <= r[k].1 < n
    ensures forall k, l :: 0 <= k < l < |r| ==> r[k].1 < r[l].1
  {
    if n == 0 then []
    else RowMoves(b, p, i, n - 1) + (if IsLegal(b, i, n - 1, p) then [(i, n - 1)] else [])
  }

  /** The legal moves of `p` in the first `m` rows, in row-major order. */
  function MovesBefore(b: seq<int>, p: int, m: int): (r: seq<Move>)
    requires |b| == CELLS && 0 <= m <= BOARD_SIZE
    ensures forall k :: 0 <= k < |r| ==> 0 <= r[k].0 < m && 0 <= r[k].1 < BOARD_SIZE
    ensures forall k, l :: 0 <= k < l < |r| ==> Rank(r[k]) < Rank(r[l])
  {
    if m == 0 then []
    else
      var prev := MovesBefore(b, p, m - 1);
      var row := RowMoves(b, p, m - 1, BOARD_SIZE);
      assert forall k :: 0 <= k < |prev| ==> Rank(prev[k]) < (m - 1) * 8;
      assert forall k :: 0 <= k < |row| ==> (m - 1) * 8 <= Rank(row[k]);
      prev + row
  }

  /** All legal moves of `p`, in the order the searches try them. */
  function LegalMoves(b: seq<int>, p: int): (ms: seq<Move>)
    requires |b| == CELLS
    ensures AllOnBoard(ms)
  {
    MovesBefore(b, p, BOARD_SIZE)
  }

  lemma {:induction false} RowMovesLegal(b: seq<int>, p: int, i: int, n: int)
    requires |b| == CELLS && 0 <= i < BOARD_SIZE && 0 <= n <= BOARD_SIZE
    ensures forall j :: 0 <= j < BOARD_SIZE ==> ((i, j) in RowMoves(b, p, i, n) <==> j < n && IsLegal(b, i, j, p))
  {
    if n > 0 {
      RowMovesLegal(b, p, i, n - 1);
    }
  }

  lemma {:induction false} MovesBeforeLegal(b: seq<int>, p: int, m: int)
    requires |b| == CELLS && 0 <= m <= BOARD_SIZE
    ensures forall x, y :: InBounds(x, y) ==> ((x, y) in MovesBefore(b, p, m) <==> x < m && IsLegal(b, x, y, p))
  {
    if m > 0 {
      MovesBeforeLegal(b, p, m - 1);
      RowMovesLegal(b, p, m - 1, BOARD_SIZE);
    }
  }

  /** The move list holds exactly the legal moves, each once, strictly increasing in rank. */
  lemma LegalMovesExactly(b: seq<int>, p: int)
    requires |b| == CELLS
    ensures forall x, y :: InBounds(x, y) ==> ((x, y) in LegalMoves(b, p) <==> IsLegal(b, x, y, p))
    ensures forall k, l :: 0 <= k < l < |LegalMoves(b, p)| ==>
      Rank(LegalMoves(b, p)[k]) < Rank(LegalMoves(b, p)[l])
  {
    MovesBeforeLegal(b, p, BOARD_SIZE);
  }

  /** Every move of `ms` is legal for `p` on `b`. */
  predicate AllLegal(b: seq<int>, ms: seq<Move>, p: int)
    requires |b| == CELLS && AllOnBoard(ms)
  {
    forall k :: 0 <= k < |ms| ==> IsLegal(b, ms[k].0, ms[k].1, p)
  }

  lemma LegalMovesAllLegal(b: seq<int>, p: int)
    requires |b| == CELLS
    ensures AllLegal(b, LegalMoves(b, p), p)
  {
    LegalMovesExactly(b, p);
    var ms := LegalMoves(b, p);
    forall k | 0 <= k < |ms|
      ensures IsLegal(b, ms[k].0, ms[k].1, p)
    {
      assert ms[k] in ms;
    }
  }

  // ----- The reference value -----

  /** The side `p` strictly prefers `v` to `w`. */
  predicate Better(p: int, v: int, w: int) {
    if p == MAX_PLAYER then v > w else v < w
  }

  /** The code's comparison `v * p > w * p` is the side's strict preference. */
  lemma BetterIsProduct(p: int, v: int, w: int)
    requires IsPlayer(p)
    ensures v * p > w * p <==> Better(p, v, w)
  {
    if p == MAX_PLAYER {
      assert v * p == v && w * p == w;
    } else {
      assert v * p == -v && w * p == -w;
    }
  }

  /** The value the side `p` keeps out of `a` and `c`. */
  function Pick(p: int, a: int, c: int): (r: int)
    ensures r == a || r == c
    ensures !Better(p, a, r) && !Better(p, c, r)
  {
    if Better(p, c, a) then c else a
  }

  /** The sentinel the searches start from: below every score for MAX, above for MIN. */
  function Sentinel(p: int): int {
    -p * INF
  }

  /** A value an evaluator can produce on a well-formed board. */
  predicate IsScore(v: int) {
    -784 <= v <= 784
  }

  /** Value of the position `b` with `p` to move at ply `d`, searched to ply `D`. */
  function Value(e: Evaluator, b: seq<int>, d: int, D: int, p: int): int
    requires |b| == CELLS && IsPlayer(p)
    decreases D - d + 1, 1, 0
  {
    if d > D then Score(e, b)
    else
      var ms := LegalMoves(b, p);
      if ms == [] then Score(e, b)
      else Extreme(e, b, d, D, p, ms[1..], ChildValue(e, b, d, D, p, ms[0]))
  }

  /** Value of the position after `p` plays `m`. */
  function ChildValue(e: Evaluator, b: seq<int>, d: int, D: int, p: int, m: Move): int
    requires |b| == CELLS && IsPlayer(p) && d <= D && InBounds(m.0, m.1)
    decreases D - d + 1, 0, 0
  {
    Value(e, Flip(b, m.0, m.1, p), d + 1, D, -p)
  }

  /** `acc` combined by `Pick` with the child values of the moves `ms`, in order. */
  function Extreme(e: Evaluator, b: seq<int>, d: int, D: int, p: int, ms: seq<Move>, acc: int): int
    requires |b| == CELLS && IsPlayer(p) && d <= D && AllOnBoard(ms)
    decreases D - d + 1, 0, |ms|
  {
    if ms == [] then acc
    else Extreme(e, b, d, D, p, ms[1..], Pick(p, acc, ChildValue(e, b, d, D, p, ms[0])))
  }

  // ----- The minimax search, step by step -----

  /** What a search call hands back: its value, the (x, y) out-parameters, whether the side
   *  to move had a move (the contribution to `canMove`), and the trace records it logged. */
  datatype Outcome = Outcome(value: int, x: int, y: int, moved: bool, trace: seq<Record>)

  /** The state of a node's loop over its moves. */
  datatype Progress = Progress(best: int, x: int, y: int, trace: seq<Record>)

  /** The minimax call at ply `d` entered with the out-parameters (x, y). */
  function Minimax(e: Evaluator, b: seq<int>, d: int, D: int, p: int, x: int, y: int, stopLog: bool): Outcome
    requires |b| == CELLS && IsPlayer(p)
    decreases D - d + 1, 1, 0
  {
    if d > D then
      var v := Score(e, b);
      Outcome(v, x, y, false, Log(stopLog, [], MinimaxLine(d, v, x, y)))
    else
      var ms := LegalMoves(b, p);
      var best := if ms == [] then Score(e, b) else Sentinel(p);
      var r := MinimaxLoop(e, b, d, D, p, ms, x, y, best, x, y, Log(stopLog, [], MinimaxLine(d, best, x, y)), stopLog);
      Outcome(r.best, r.x, r.y, ms != [], r.trace)
  }

  /** The rest of a minimax node's loop: `ms` are the moves still to try, (ox, oy) the node's
   *  own label, `best` and (bestX, bestY) the best value and move so far. */
  function MinimaxLoop(e: Evaluator, b: seq<int>, d: int, D: int, p: int, ms: seq<Move>, ox: int, oy: int,
                       best: int, bestX: int, bestY: int, trace: seq<Record>, stopLog: bool): Progress
    requires |b| == CELLS && IsPlayer(p) && d <= D && AllOnBoard(ms)
    decreases D - d + 1, 0, |ms|
  {
    if ms == [] then Progress(best, bestX, bestY, trace)
    else
      var (i, j) := ms[0];
      var child := Minimax(e, Flip(b, i, j, p), d + 1, D, -p, i, j, stopLog);
      var better := child.value * p > best * p;
      var best' := if better then child.value else best;
      MinimaxLoop(e, b, d, D, p, ms[1..], ox, oy, best', if better then i else bestX, if better then j else bestY,
                  Log(stopLog, trace + child.trace, MinimaxLine(d, best', ox, oy)), stopLog)
  }

  /** A minimax node below the depth limit, in terms of its loop's result `r`. */
  lemma MinimaxNode(e: Evaluator, b: seq<int>, d: int, D: int, p: int, x: int, y: int, stopLog: bool,
                    ms: seq<Move>, best: int, r: Progress)
    requires |b| == CELLS && IsPlayer(p) && d <= D && ms == LegalMoves(b, p)
    requires best == if ms == [] then Score(e, b) else Sentinel(p)
    requires r == MinimaxLoop(e, b, d, D, p, ms, x, y, best, x, y, Log(stopLog, [], MinimaxLine(d, best, x, y)), stopLog)
    ensures Minimax(e, b, d, D, p, x, y, stopLog) == Outcome(r.best, r.x, r.y, ms != [], r.trace)
  {
  }

  /** One turn of a minimax node's loop, written with the child's value `v` and trace `ct`
   *  as the method receives them. */
  lemma MinimaxLoopStep(e: Evaluator, b: seq<int>, d: int, D: int, p: int, ms: seq<Move>, ox: int, oy: int,
                        best: int, bestX: int, bestY: int, trace: seq<Record>, stopLog: bool, i: int, j: int, cb: seq<int>, c: Outcome)
    requires |b| == CELLS && IsPlayer(p) && d <= D && AllOnBoard(ms) && ms != [] && ms[0] == (i, j)
    requires cb == Flip(b, i, j, p) && c == Minimax(e, cb, d + 1, D, -p, i, j, stopLog)
    ensures var better := c.value * p > best * p;
      var best' := if better then c.value else best;
      MinimaxLoop(e, b, d, D, p, ms, ox, oy, best, bestX, bestY, trace, stopLog) ==
      MinimaxLoop(e, b, d, D, p, ms[1..], ox, oy, best', if better then i else bestX, if better then j else bestY,
                  Log(stopLog, trace + c.trace, MinimaxLine(d, best', ox, oy)), stopLog)
  {
  }

  // ----- Properties of the reference value -----

  lemma {:induction false} ValueBound(e: Evaluator, b: seq<int>, d: int, D: int, p: int)
    requires WellFormed(b) && IsPlayer(p)
    ensures IsScore(Value(e, b, d, D, p))
    decreases D - d + 1, 1, 0
  {
    ScoreInsideSentinels(e, b);
    if d <= D {
      var ms := LegalMoves(b, p);
      if ms != [] {
        ChildBound(e, b, d, D, p, ms[0]);
        ExtremeBound(e, b, d, D, p, ms[1..], ChildValue(e, b, d, D, p, ms[0]));
      }
    }
  }

  lemma {:induction false} ChildBound(e: Evaluator, b: seq<int>, d: int, D: int, p: int, m: Move)
    requires WellFormed(b) && IsPlayer(p) && d <= D && InBounds(m.0, m.1)
    ensures IsScore(ChildValue(e, b, d, D, p, m))
    decreases D - d + 1, 0, 0
  {
    FlipWellFormed(b, m.0, m.1, p);
    ValueBound(e, Flip(b, m.0, m.1, p), d + 1, D, -p);
  }

  lemma {:induction false} ExtremeBound(e: Evaluator, b: seq<int>, d: int, D: int, p: int, ms: seq<Move>, acc: int)
    requires WellFormed(b) && IsPlayer(p) && d <= D && AllOnBoard(ms) && IsScore(acc)
    ensures IsScore(Extreme(e, b, d, D, p, ms, acc))
    decreases D - d + 1, 0, |ms|
  {
    if ms != [] {
      ChildBound(e, b, d, D, p, ms[0]);
      ExtremeBound(e, b, d, D, p, ms[1..], Pick(p, acc, ChildValue(e, b, d, D, p, ms[0])));
    }
  }

  /** On a well-formed board a score is strictly better for the side than its own sentinel. */
  lemma SentinelLoses(p: int, v: int)
    requires IsPlayer(p) && IsScore(v)
    ensures Better(p, v, Sentinel(p)) && Pick(p, Sentinel(p), v) == v
  {
  }

  // ----- Minimax computes the reference value -----

  /** The minimax search returns `Value`. */
  lemma {:induction false} MinimaxIsValue(e: Evaluator, b: seq<int>, d: int, D: int, p: int, x: int, y: int, stopLog: bool)
    requires WellFormed(b) && IsPlayer(p)
    ensures Minimax(e, b, d, D, p, x, y, stopLog).value == Value(e, b, d, D, p)
    decreases D - d + 1, 1, 0
  {
    if d <= D {
      var ms := LegalMoves(b, p);
      var best := if ms == [] then Score(e, b) else Sentinel(p);
      MinimaxLoopIsExtreme(e, b, d, D, p, ms, x, y, best, x, y, Log(stopLog, [], MinimaxLine(d, best, x, y)), stopLog);
      if ms != [] {
        ChildBound(e, b, d, D, p, ms[0]);
        SentinelLoses(p, ChildValue(e, b, d, D, p, ms[0]));
      }
    }
  }

  /** A node's loop folds the child values exactly as `Extreme` does. */
  lemma {:induction false} MinimaxLoopIsExtreme(e: Evaluator, b: seq<int>, d: int, D: int, p: int, ms: seq<Move>,
                                                 ox: int, oy: int, best: int, bestX: int, bestY: int, trace: seq<Record>, stopLog: bool)
    requires WellFormed(b) && IsPlayer(p) && d <= D && AllOnBoard(ms)
    ensures MinimaxLoop(e, b, d, D, p, ms, ox, oy, best, bestX, bestY, trace, stopLog).best == Extreme(e, b, d, D, p, ms, best)
    decreases D - d + 1, 0, |ms|
  {
    if ms != [] {
      var (i, j) := ms[0];
      var child := Minimax(e, Flip(b, i, j, p), d + 1, D, -p, i, j, stopLog);
      FlipWellFormed(b, i, j, p);
      MinimaxIsValue(e, Flip(b, i, j, p), d + 1, D, -p, i, j, stopLog);
      BetterIsProduct(p, child.value, best);
      var better := child.value * p > best * p;
      var best' := if better then child.value else best;
      assert best' == Pick(p, best, ChildValue(e, b, d, D, p, ms[0]));
      MinimaxLoopIsExtreme(e, b, d, D, p, ms[1..], ox, oy, best', if better then i else bestX, if better then j else bestY,
                           Log(stopLog, trace + child.trace, MinimaxLine(d, best', ox, oy)), stopLog);
    }
  }

  /** The child values of the moves `ms`, in order. */
  function ChildValues(e: Evaluator, b: seq<int>, d: int, D: int, p: int, ms: seq<Move>): (vs: seq<int>)
    requires |b| == CELLS && IsPlayer(p) && d <= D && AllOnBoard(ms)
    ensures |vs| == |ms| && forall k :: 0 <= k < |ms| ==> vs[k] == ChildValue(e, b, d, D, p, ms[k])
  {
    seq(|ms|, k requires 0 <= k < |ms| => ChildValue(e, b, d, D, p, ms[k]))
  }

  /** Best value and move after scanning the values `vs` of the moves `ms`, replacing the
   *  current choice only on a strict improvement. */
  function Choose(p: int, vs: seq<int>, ms: seq<Move>, best: int, bestX: int, bestY: int): (int, int, int)
    requires |vs| == |ms|
  {
    if vs == [] then (best, bestX, bestY)
    else if Better(p, vs[0], best) then Choose(p, vs[1..], ms[1..], vs[0], ms[0].0, ms[0].1)
    else Choose(p, vs[1..], ms[1..], best, bestX, bestY)
  }

  /** A scan with strict replacement ends on the first value that no other value beats, or
   *  keeps its starting choice when no value beats that. */
  lemma {:induction false} ChooseFirst(p: int, vs: seq<int>, ms: seq<Move>, best: int, bestX: int, bestY: int)
    returns (k: int)
    requires IsPlayer(p) && |vs| == |ms|
    ensures var (v, x, y) := Choose(p, vs, ms, best, bestX, bestY);
      -1 <= k < |vs| && !Better(p, best, v) &&
      (forall l :: 0 <= l < |vs| ==> !Better(p, vs[l], v)) &&
      (k == -1 ==> v == best && x == bestX && y == bestY) &&
      (k >= 0 ==> ms[k] == (x, y) && vs[k] == v && Better(p, v, best) &&
                  forall l :: 0 <= l < k ==> Better(p, v, vs[l]))
  {
    if vs == [] {
      k := -1;
    } else {
      var better := Better(p, vs[0], best);
      var best' := if better then vs[0] else best;
      var x' := if better then ms[0].0 else bestX;
      var y' := if better then ms[0].1 else bestY;
      var k' := ChooseFirst(p, vs[1..], ms[1..], best', x', y');
      var (v, x, y) := Choose(p, vs, ms, best, bestX, bestY);
      assert (v, x, y) == Choose(p, vs[1..], ms[1..], best', x', y');
      forall l | 1 <= l < |vs|
        ensures !Better(p, vs[l], v)
      {
        assert vs[l] == vs[1..][l - 1];
      }
      if k' >= 0 {
        k := k' + 1;
        assert ms[k] == ms[1..][k'] && vs[k] == vs[1..][k'];
        forall l | 1 <= l < k
          ensures Better(p, v, vs[l])
        {
          assert vs[l] == vs[1..][l - 1];
        }
      } else if better {
        k := 0;
      } else {
        k := -1;
      }
    }
  }

  /** A minimax node's loop makes the choice `Choose` makes over the child values. */
  lemma {:induction false} MinimaxLoopChooses(e: Evaluator, b: seq<int>, d: int, D: int, p: int, ms: seq<Move>,
                                               ox: int, oy: int, best: int, bestX: int, bestY: int, trace: seq<Record>, stopLog: bool)
    requires WellFormed(b) && IsPlayer(p) && d <= D && AllOnBoard(ms)
    ensures var r := MinimaxLoop(e, b, d, D, p, ms, ox, oy, best, bestX, bestY, trace, stopLog);
      (r.best, r.x, r.y) == Choose(p, ChildValues(e, b, d, D, p, ms), ms, best, bestX, bestY)
    decreases |ms|
  {
    if ms != [] {
      var (i, j) := ms[0];
      var child := Minimax(e, Flip(b, i, j, p), d + 1, D, -p, i, j, stopLog);
      FlipWellFormed(b, i, j, p);
      MinimaxIsValue(e, Flip(b, i, j, p), d + 1, D, -p, i, j, stopLog);
      BetterIsProduct(p, child.value, best);
      var better := child.value * p > best * p;
      var best' := if better then child.value else best;
      MinimaxLoopChooses(e, b, d, D, p, ms[1..], ox, oy, best', if better then i else bestX, if better then j else bestY,
                         Log(stopLog, trace + child.trace, MinimaxLine(d, best', ox, oy)), stopLog);
      assert ChildValues(e, b, d, D, p, ms)[1..] == ChildValues(e, b, d, D, p, ms[1..]);
    }
  }

  /** Below the depth limit, with a move available, minimax returns the first move in
   *  row-major order whose child value is the node's value: every earlier move is strictly
   *  worse for the side to move, and no move is better. */
  lemma MinimaxMove(e: Evaluator, b: seq<int>, d: int, D: int, p: int, x: int, y: int, stopLog: bool)
    returns (k: int)
    requires WellFormed(b) && IsPlayer(p) && d <= D && LegalMoves(b, p) != []
    ensures var o := Minimax(e, b, d, D, p, x, y, stopLog); var ms := LegalMoves(b, p);
      0 <= k < |ms| && ms[k] == (o.x, o.y) && InBounds(o.x, o.y) && IsLegal(b, o.x, o.y, p) &&
      o.value == ChildValue(e, b, d, D, p, ms[k]) &&
      (forall l :: 0 <= l < k ==> Better(p, o.value, ChildValue(e, b, d, D, p, ms[l]))) &&
      (forall l :: 0 <= l < |ms| ==> !Better(p, ChildValue(e, b, d, D, p, ms[l]), o.value))
  {
    var ms := LegalMoves(b, p);
    var t := Log(stopLog, [], MinimaxLine(d, Sentinel(p), x, y));
    var vs := ChildValues(e, b, d, D, p, ms);
    MinimaxLoopChooses(e, b, d, D, p, ms, x, y, Sentinel(p), x, y, t, stopLog);
    k := ChooseFirst(p, vs, ms, Sentinel(p), x, y);
    ChildBound(e, b, d, D, p, ms[0]);
    SentinelLoses(p, vs[0]);
    LegalMovesExactly(b, p);
    assert ms[k] in ms;
  }

  // ----- The alpha-beta search, step by step -----

  /** The bookkeeping of an alpha-beta node: its window, best value and move so far, and
   *  whether the last step cut the remaining moves off. */
  datatype Frame = Frame(alpha: int, beta: int, best: int, x: int, y: int, cut: bool)

  /** One step of an alpha-beta node after a child returned `v` for the move (i, j): MAX
   *  raises alpha and takes the move on a value above alpha, MIN lowers beta (and sets the
   *  best value with it) and takes the move on a value below beta; either cuts once the
   *  window closes. */
  function Update(p: int, v: int, i: int, j: int, f: Frame): (g: Frame)
    requires f.alpha < f.beta
    ensures g.cut <==> g.alpha >= g.beta
  {
    if p == MAX_PLAYER then
      var raise := v > f.alpha;
      var alpha := if raise then v else f.alpha;
      Frame(alpha, f.beta, if v > f.best then v else f.best,
            if raise then i else f.x, if raise then j else f.y, raise && alpha >= f.beta)
    else
      var lower := v < f.beta;
      var beta := if lower then v else f.beta;
      var best := if lower then v else f.best;
      Frame(f.alpha, beta, if v < best then v else best,
            if lower then i else f.x, if lower then j else f.y, lower && f.alpha >= beta)
  }

  /** The alpha-beta call at ply `d` with window (alpha, beta), entered with the
   *  out-parameters (x, y).  Every call, the recursive ones included, has alpha < beta. */
  function AlphaBeta(e: Evaluator, b: seq<int>, d: int, D: int, p: int, alpha: int, beta: int,
                     x: int, y: int, stopLog: bool): Outcome
    requires |b| == CELLS && IsPlayer(p) && alpha < beta
    decreases D - d + 1, 1, 0
  {
    if d > D then
      var v := Score(e, b);
      Outcome(v, x, y, false, Log(stopLog, [], AlphaBetaLine(d, v, alpha, beta, x, y, false)))
    else
      var ms := LegalMoves(b, p);
      var best := if ms == [] then Score(e, b) else Sentinel(p);
      var (f, t) := AlphaBetaLoop(e, b, d, D, p, ms, x, y, Frame(alpha, beta, best, x, y, false),
                                  Log(stopLog, [], AlphaBetaLine(d, best, alpha, beta, x, y, false)), stopLog);
      Outcome(f.best, f.x, f.y, ms != [], t)
  }

  /** The rest of an alpha-beta node's loop over the moves `ms`; (ox, oy) is the node's label. */
  function AlphaBetaLoop(e: Evaluator, b: seq<int>, d: int, D: int, p: int, ms: seq<Move>, ox: int, oy: int,
                         f: Frame, trace: seq<Record>, stopLog: bool): (Frame, seq<Record>)
    requires |b| == CELLS && IsPlayer(p) && d <= D && AllOnBoard(ms) && f.alpha < f.beta
    decreases D - d + 1, 0, |ms|
  {
    if ms == [] then (f, trace)
    else
      var (i, j) := ms[0];
      var child := AlphaBeta(e, Flip(b, i, j, p), d + 1, D, -p, f.alpha, f.beta, i, j, stopLog);
      var g := Update(p, child.value, i, j, f);
      var trace' := Log(stopLog, trace + child.trace, AlphaBetaLine(d, g.best, g.alpha, g.beta, ox, oy, g.cut));
      if g.cut then (g, trace')
      else AlphaBetaLoop(e, b, d, D, p, ms[1..], ox, oy, g, trace', stopLog)
  }

  /** An alpha-beta node below the depth limit, in terms of its loop's result (f, t). */
  lemma AlphaBetaNode(e: Evaluator, b: seq<int>, d: int, D: int, p: int, alpha: int, beta: int, x: int, y: int,
                      stopLog: bool, ms: seq<Move>, best: int, f: Frame, t: seq<Record>)
    requires |b| == CELLS && IsPlayer(p) && d <= D && alpha < beta && ms == LegalMoves(b, p)
    requires best == if ms == [] then Score(e, b) else Sentinel(p)
    requires (f, t) == AlphaBetaLoop(e, b, d, D, p, ms, x, y, Frame(alpha, beta, best, x, y, false),
                                     Log(stopLog, [], AlphaBetaLine(d, best, alpha, beta, x, y, false)), stopLog)
    ensures AlphaBeta(e, b, d, D, p, alpha, beta, x, y, stopLog) == Outcome(f.best, f.x, f.y, ms != [], t)
  {
  }

  /** One turn of an alpha-beta node's loop, written with the child's value `v` and trace
   *  `ct` as the method receives them: the node stops on a cutoff and goes on otherwise. */
  lemma AlphaBetaLoopStep(e: Evaluator, b: seq<int>, d: int, D: int, p: int, ms: seq<Move>, ox: int, oy: int,
                          f: Frame, trace: seq<Record>, stopLog: bool, i: int, j: int, cb: seq<int>, c: Outcome)
    requires |b| == CELLS && IsPlayer(p) && d <= D && AllOnBoard(ms) && f.alpha < f.beta && ms != [] && ms[0] == (i, j)
    requires cb == Flip(b, i, j, p) && c == AlphaBeta(e, cb, d + 1, D, -p, f.alpha, f.beta, i, j, stopLog)
    ensures var g := Update(p, c.value, i, j, f);
      var trace' := Log(stopLog, trace + c.trace, AlphaBetaLine(d, g.best, g.alpha, g.beta, ox, oy, g.cut));
      AlphaBetaLoop(e, b, d, D, p, ms, ox, oy, f, trace, stopLog) ==
      if g.cut then (g, trace') else AlphaBetaLoop(e, b, d, D, p, ms[1..], ox, oy, g, trace', stopLog)
  {
  }

  /** The root search: the full window (-INF, INF). */
  function AlphaBetaRoot(e: Evaluator, b: seq<int>, d: int, D: int, p: int, x: int, y: int, stopLog: bool): Outcome
    requires |b| == CELLS && IsPlayer(p)
  {
    AlphaBeta(e, b, d, D, p, -INF, INF, x, y, stopLog)
  }

  // ----- The fail-soft bound -----

  /** Continuing a fold never makes the result worse for the side than where it started. */
  lemma {:induction false} ExtremeNotWorse(e: Evaluator, b: seq<int>, d: int, D: int, p: int, ms: seq<Move>, acc: int)
    requires |b| == CELLS && IsPlayer(p) && d <= D && AllOnBoard(ms)
    ensures !Better(p, acc, Extreme(e, b, d, D, p, ms, acc))
    decreases |ms|
  {
    if ms != [] {
      ExtremeNotWorse(e, b, d, D, p, ms[1..], Pick(p, acc, ChildValue(e, b, d, D, p, ms[0])));
    }
  }

  /** What a call's result says about the true value, for the window (alpha, beta) it was
   *  given: a result at or below alpha bounds the value from above, one at or above beta
   *  bounds it from below, and one strictly inside the window is exact. */
  predicate FailSoft(r: int, v: int, alpha: int, beta: int) {
    (r <= alpha ==> v <= r) && (r >= beta ==> r <= v) && (alpha < r < beta ==> r == v)
  }

  /** Alpha-beta is fail-soft: its result bounds `Value` as `FailSoft` states, and it is a
   *  score an evaluator can produce, so it never equals a sentinel. */
  lemma {:induction false} AlphaBetaFailSoft(e: Evaluator, b: seq<int>, d: int, D: int, p: int, alpha: int, beta: int,
                                              x: int, y: int, stopLog: bool)
    requires WellFormed(b) && IsPlayer(p) && -INF <= alpha < beta <= INF
    ensures var r := AlphaBeta(e, b, d, D, p, alpha, beta, x, y, stopLog).value;
      IsScore(r) && FailSoft(r, Value(e, b, d, D, p), alpha, beta)
    decreases D - d + 1, 1, 0
  {
    ScoreInsideSentinels(e, b);
    if d <= D {
      var ms := LegalMoves(b, p);
      if ms != [] {
        var best := Sentinel(p);
        var f := Frame(alpha, beta, best, x, y, false);
        var t := Log(stopLog, [], AlphaBetaLine(d, best, alpha, beta, x, y, false));
        if p == MAX_PLAYER {
          MaxLoopFailSoft(e, b, d, D, ms, x, y, f, t, stopLog, alpha, best);
        } else {
          MinLoopFailSoft(e, b, d, D, ms, x, y, f, t, stopLog, beta, best);
        }
        ChildBound(e, b, d, D, p, ms[0]);
        SentinelLoses(p, ChildValue(e, b, d, D, p, ms[0]));
      }
    }
  }

  /** The loop of a MAX node entered with alpha `a0`; `done` is the largest child value of the
   *  moves already tried (the sentinel before the first).  The loop keeps
   *  alpha == max(a0, best), and it cuts exactly when best reaches beta. */
  lemma {:induction false} MaxLoopFailSoft(e: Evaluator, b: seq<int>, d: int, D: int, ms: seq<Move>, ox: int, oy: int,
                                            f: Frame, trace: seq<Record>, stopLog: bool, a0: int, done: int)
    requires WellFormed(b) && d <= D && AllOnBoard(ms) && !f.cut
    requires -INF <= a0 && f.alpha < f.beta <= INF && f.alpha == Max(a0, f.best)
    requires IsScore(f.best) || (f.best == -INF && ms != [])
    requires done <= f.best && (f.best > a0 ==> done == f.best)
    ensures var (g, _) := AlphaBetaLoop(e, b, d, D, MAX_PLAYER, ms, ox, oy, f, trace, stopLog);
      IsScore(g.best) && g.alpha == Max(a0, g.best) && (g.cut <==> g.best >= f.beta) &&
      FailSoft(g.best, Extreme(e, b, d, D, MAX_PLAYER, ms, done), a0, f.beta)
    decreases D - d + 1, 0, |ms|
  {
    var p := MAX_PLAYER;
    if ms != [] {
      var (i, j) := ms[0];
      FlipWellFormed(b, i, j, p);
      var child := AlphaBeta(e, Flip(b, i, j, p), d + 1, D, -p, f.alpha, f.beta, i, j, stopLog);
      AlphaBetaFailSoft(e, Flip(b, i, j, p), d + 1, D, -p, f.alpha, f.beta, i, j, stopLog);
      var v := ChildValue(e, b, d, D, p, ms[0]);
      var g := Update(p, child.value, i, j, f);
      var trace' := Log(stopLog, trace + child.trace, AlphaBetaLine(d, g.best, g.alpha, g.beta, ox, oy, g.cut));
      var done' := Pick(p, done, v);
      ExtremeNotWorse(e, b, d, D, p, ms[1..], done');
      if !g.cut {
        MaxLoopFailSoft(e, b, d, D, ms[1..], ox, oy, g, trace', stopLog, a0, done');
      }
    }
  }

  /** The loop of a MIN node entered with beta `b0`; `done` is the smallest child value of the
   *  moves already tried.  The loop keeps beta == min(b0, best), and it cuts exactly when
   *  best falls to alpha. */
  lemma {:induction false} MinLoopFailSoft(e: Evaluator, b: seq<int>, d: int, D: int, ms: seq<Move>, ox: int, oy: int,
                                            f: Frame, trace: seq<Record>, stopLog: bool, b0: int, done: int)
    requires WellFormed(b) && d <= D && AllOnBoard(ms) && !f.cut
    requires -INF <= f.alpha < f.beta && b0 <= INF && f.beta == Min(b0, f.best)
    requires IsScore(f.best) || (f.best == INF && ms != [])
    requires done >= f.best && (f.best < b0 ==> done == f.best)
    ensures var (g, _) := AlphaBetaLoop(e, b, d, D, MIN_PLAYER, ms, ox, oy, f, trace, stopLog);
      IsScore(g.best) && g.beta == Min(b0, g.best) && (g.cut <==> g.best <= f.alpha) &&
      FailSoft(g.best, Extreme(e, b, d, D, MIN_PLAYER, ms, done), f.alpha, b0)
    decreases D - d + 1, 0, |ms|
  {
    var p := MIN_PLAYER;
    if ms != [] {
      var (i, j) := ms[0];
      FlipWellFormed(b, i, j, p);
      var child := AlphaBeta(e, Flip(b, i, j, p), d + 1, D, -p, f.alpha, f.beta, i, j, stopLog);
      AlphaBetaFailSoft(e, Flip(b, i, j, p), d + 1, D, -p, f.alpha, f.beta, i, j, stopLog);
      var v := ChildValue(e, b, d, D, p, ms[0]);
      var g := Update(p, child.value, i, j, f);
      var trace' := Log(stopLog, trace + child.trace, AlphaBetaLine(d, g.best, g.alpha, g.beta, ox, oy, g.cut));
      var done' := Pick(p, done, v);
      ExtremeNotWorse(e, b, d, D, p, ms[1..], done');
      if !g.cut {
        MinLoopFailSoft(e, b, d, D, ms[1..], ox, oy, g, trace', stopLog, b0, done');
      }
    }
  }

  /** At a MIN node beta never exceeds best, so the assignment of best together with beta
   *  leaves best at the plain minimum of best and the child value. */
  lemma MinUpdateIsMin(v: int, i: int, j: int, f: Frame)
    requires f.alpha < f.beta <= f.best
    ensures Update(MIN_PLAYER, v, i, j, f).best == Min(f.best, v)
  {
  }

  // ----- The root alpha-beta call agrees with minimax -----

  /** The root alpha-beta search returns the minimax value, the same move and the same
   *  `canMove` contribution. */
  lemma {:induction false} AlphaBetaRootIsMinimax(e: Evaluator, b: seq<int>, d: int, D: int, p: int, x: int, y: int, stopLog: bool)
    requires WellFormed(b) && IsPlayer(p)
    ensures var a := AlphaBetaRoot(e, b, d, D, p, x, y, stopLog); var m := Minimax(e, b, d, D, p, x, y, stopLog);
      a.value == m.value && a.x == m.x && a.y == m.y && a.moved == m.moved
  {
    if d <= D {
      var ms := LegalMoves(b, p);
      if ms != [] {
        var best := Sentinel(p);
        var f := Frame(-INF, INF, best, x, y, false);
        var ta := Log(stopLog, [], AlphaBetaLine(d, best, -INF, INF, x, y, false));
        var tm := Log(stopLog, [], MinimaxLine(d, best, x, y));
        var la := AlphaBetaLoop(e, b, d, D, p, ms, x, y, f, ta, stopLog);
        var lm := MinimaxLoop(e, b, d, D, p, ms, x, y, best, x, y, tm, stopLog);
        assert AlphaBetaRoot(e, b, d, D, p, x, y, stopLog) == Outcome(la.0.best, la.0.x, la.0.y, true, la.1);
        assert Minimax(e, b, d, D, p, x, y, stopLog) == Outcome(lm.best, lm.x, lm.y, true, lm.trace);
        if p == MAX_PLAYER {
          MaxRootLoop(e, b, d, D, ms, x, y, f, ta, tm, stopLog);
        } else {
          MinRootLoop(e, b, d, D, ms, x, y, f, ta, tm, stopLog);
        }
      } else {
        var s := Score(e, b);
        var la := AlphaBetaLoop(e, b, d, D, p, ms, x, y, Frame(-INF, INF, s, x, y, false),
                                Log(stopLog, [], AlphaBetaLine(d, s, -INF, INF, x, y, false)), stopLog);
        assert la.0 == Frame(-INF, INF, s, x, y, false);
        var lm := MinimaxLoop(e, b, d, D, p, ms, x, y, s, x, y, Log(stopLog, [], MinimaxLine(d, s, x, y)), stopLog);
        assert lm.best == s && lm.x == x && lm.y == y;
      }
    }
  }

  /** At a MAX root alpha, best and the minimax best coincide throughout the loop, so both
   *  searches replace their move on the same children. */
  lemma {:induction false} MaxRootLoop(e: Evaluator, b: seq<int>, d: int, D: int, ms: seq<Move>, ox: int, oy: int,
                                        f: Frame, ta: seq<Record>, tm: seq<Record>, stopLog: bool)
    requires WellFormed(b) && d <= D && AllOnBoard(ms) && !f.cut
    requires f.beta == INF && f.alpha == f.best && (IsScore(f.best) || f.best == -INF)
    ensures var (g, _) := AlphaBetaLoop(e, b, d, D, MAX_PLAYER, ms, ox, oy, f, ta, stopLog);
      var r := MinimaxLoop(e, b, d, D, MAX_PLAYER, ms, ox, oy, f.best, f.x, f.y, tm, stopLog);
      g.best == r.best && g.x == r.x && g.y == r.y
    decreases |ms|
  {
    var p := MAX_PLAYER;
    if ms != [] {
      var (i, j) := ms[0];
      var c := Flip(b, i, j, p);
      FlipWellFormed(b, i, j, p);
      var ca := AlphaBeta(e, c, d + 1, D, -p, f.alpha, f.beta, i, j, stopLog);
      var cm := Minimax(e, c, d + 1, D, -p, i, j, stopLog);
      AlphaBetaFailSoft(e, c, d + 1, D, -p, f.alpha, f.beta, i, j, stopLog);
      MinimaxIsValue(e, c, d + 1, D, -p, i, j, stopLog);
      BetterIsProduct(p, cm.value, f.best);
      var g := Update(p, ca.value, i, j, f);
      var better := cm.value * p > f.best * p;
      assert better <==> ca.value > f.alpha;
      var best' := if better then cm.value else f.best;
      assert g.best == best' && !g.cut;
      MaxRootLoop(e, b, d, D, ms[1..], ox, oy, g,
                  Log(stopLog, ta + ca.trace, AlphaBetaLine(d, g.best, g.alpha, g.beta, ox, oy, g.cut)),
                  Log(stopLog, tm + cm.trace, MinimaxLine(d, best', ox, oy)), stopLog);
    }
  }

  /** At a MIN root beta, best and the minimax best coincide throughout the loop. */
  lemma {:induction false} MinRootLoop(e: Evaluator, b: seq<int>, d: int, D: int, ms: seq<Move>, ox: int, oy: int,
                                        f: Frame, ta: seq<Record>, tm: seq<Record>, stopLog: bool)
    requires WellFormed(b) && d <= D && AllOnBoard(ms) && !f.cut
    requires f.alpha == -INF && f.beta == f.best && (IsScore(f.best) || f.best == INF)
    ensures var (g, _) := AlphaBetaLoop(e, b, d, D, MIN_PLAYER, ms, ox, oy, f, ta, stopLog);
      var r := MinimaxLoop(e, b, d, D, MIN_PLAYER, ms, ox, oy, f.best, f.x, f.y, tm, stopLog);
      g.best == r.best && g.x == r.x && g.y == r.y
    decreases |ms|
  {
    var p := MIN_PLAYER;
    if ms != [] {
      var (i, j) := ms[0];
      var c := Flip(b, i, j, p);
      FlipWellFormed(b, i, j, p);
      var ca := AlphaBeta(e, c, d + 1, D, -p, f.alpha, f.beta, i, j, stopLog);
      var cm := Minimax(e, c, d + 1, D, -p, i, j, stopLog);
      AlphaBetaFailSoft(e, c, d + 1, D, -p, f.alpha, f.beta, i, j, stopLog);
      MinimaxIsValue(e, c, d + 1, D, -p, i, j, stopLog);
      BetterIsProduct(p, cm.value, f.best);
      var g := Update(p, ca.value, i, j, f);
      var better := cm.value * p > f.best * p;
      assert better <==> ca.value < f.beta;
      var best' := if better then cm.value else f.best;
      assert g.best == best' && !g.cut;
      MinRootLoop(e, b, d, D, ms[1..], ox, oy, g,
                  Log(stopLog, ta + ca.trace, AlphaBetaLine(d, g.best, g.alpha, g.beta, ox, oy, g.cut)),
                  Log(stopLog, tm + cm.trace, MinimaxLine(d, best', ox, oy)), stopLog);
    }
  }

  // ----- canMove -----

  /** Below the depth limit a search reports a move exactly when the side to move has a
   *  legal move; at the depth limit it reports none. */
  lemma MovedIffLegalMove(e: Evaluator, b: seq<int>, d: int, D: int, p: int, alpha: int, beta: int,
                          x: int, y: int, stopLog: bool)
    requires |b| == CELLS && IsPlayer(p) && alpha < beta
    ensures Minimax(e, b, d, D, p, x, y, stopLog).moved <==>
      d <= D && exists i, j :: InBounds(i, j) && IsLegal(b, i, j, p)
    ensures AlphaBeta(e, b, d, D, p, alpha, beta, x, y, stopLog).moved <==>
      d <= D && exists i, j :: InBounds(i, j) && IsLegal(b, i, j, p)
  {
    var ms := LegalMoves(b, p);
    LegalMovesExactly(b, p);
    if ms != [] {
      assert InBounds(ms[0].0, ms[0].1) && IsLegal(b, ms[0].0, ms[0].1, p);
    }
    if exists i, j :: InBounds(i, j) && IsLegal(b, i, j, p) {
      var i, j :| InBounds(i, j) && IsLegal(b, i, j, p);
      assert (i, j) in ms;
    }
  }

  // ----- Traces -----

  /** Nothing is logged while the latch is set. */
  lemma {:induction false} MinimaxSilent(e: Evaluator, b: seq<int>, d: int, D: int, p: int, x: int, y: int)
    requires |b| == CELLS && IsPlayer(p)
    ensures Minimax(e, b, d, D, p, x, y, true).trace == []
    decreases D - d + 1, 1, 0
  {
    if d <= D {
      var ms := LegalMoves(b, p);
      var best := if ms == [] then Score(e, b) else Sentinel(p);
      MinimaxLoopSilent(e, b, d, D, p, ms, x, y, best, x, y);
    }
  }

  lemma {:induction false} MinimaxLoopSilent(e: Evaluator, b: seq<int>, d: int, D: int, p: int, ms: seq<Move>,
                                              ox: int, oy: int, best: int, bestX: int, bestY: int)
    requires |b| == CELLS && IsPlayer(p) && d <= D && AllOnBoard(ms)
    ensures MinimaxLoop(e, b, d, D, p, ms, ox, oy, best, bestX, bestY, [], true).trace == []
    decreases D - d + 1, 0, |ms|
  {
    if ms != [] {
      var (i, j) := ms[0];
      var child := Minimax(e, Flip(b, i, j, p), d + 1, D, -p, i, j, true);
      MinimaxSilent(e, Flip(b, i, j, p), d + 1, D, -p, i, j);
      var better := child.value * p > best * p;
      var best' := if better then child.value else best;
      assert Log(true, [] + child.trace, MinimaxLine(d, best', ox, oy)) == [];
      MinimaxLoopSilent(e, b, d, D, p, ms[1..], ox, oy, best', if better then i else bestX, if better then j else bestY);
    }
  }

  lemma {:induction false} AlphaBetaSilent(e: Evaluator, b: seq<int>, d: int, D: int, p: int, alpha: int, beta: int, x: int, y: int)
    requires |b| == CELLS && IsPlayer(p) && alpha < beta
    ensures AlphaBeta(e, b, d, D, p, alpha, beta, x, y, true).trace == []
    decreases D - d + 1, 1, 0
  {
    if d <= D {
      var ms := LegalMoves(b, p);
      var best := if ms == [] then Score(e, b) else Sentinel(p);
      AlphaBetaLoopSilent(e, b, d, D, p, ms, x, y, Frame(alpha, beta, best, x, y, false));
    }
  }

  lemma {:induction false} AlphaBetaLoopSilent(e: Evaluator, b: seq<int>, d: int, D: int, p: int, ms: seq<Move>,
                                                ox: int, oy: int, f: Frame)
    requires |b| == CELLS && IsPlayer(p) && d <= D && AllOnBoard(ms) && f.alpha < f.beta
    ensures AlphaBetaLoop(e, b, d, D, p, ms, ox, oy, f, [], true).1 == []
    decreases D - d + 1, 0, |ms|
  {
    if ms != [] {
      var (i, j) := ms[0];
      var child := AlphaBeta(e, Flip(b, i, j, p), d + 1, D, -p, f.alpha, f.beta, i, j, true);
      AlphaBetaSilent(e, Flip(b, i, j, p), d + 1, D, -p, f.alpha, f.beta, i, j);
      var g := Update(p, child.value, i, j, f);
      assert Log(true, [] + child.trace, AlphaBetaLine(d, g.best, g.alpha, g.beta, ox, oy, g.cut)) == [];
      if !g.cut {
        AlphaBetaLoopSilent(e, b, d, D, p, ms[1..], ox, oy, g);
      }
    }
  }

  /** A record the log can write: the root, or a node labelled by a cell of the board. */
  predicate Printable(r: Record) {
    r.depth == 1 || InBounds(r.x, r.y)
  }

  /** Every record is logged at ply `d` or deeper and can be written as a line. */
  predicate LoggedFrom(t: seq<Record>, d: int) {
    t == [] || (LoggedFrom(t[..|t| - 1], d) && t[|t| - 1].depth >= d && Printable(t[|t| - 1]))
  }

  /** `LoggedFrom` holds exactly when it holds of every record. */
  lemma {:induction false} LoggedFromEach(t: seq<Record>, d: int)
    ensures LoggedFrom(t, d) <==> forall k :: 0 <= k < |t| ==> t[k].depth >= d && Printable(t[k])
    decreases |t|
  {
    if t != [] {
      var s := t[..|t| - 1];
      LoggedFromEach(s, d);
      assert forall k :: 0 <= k < |s| ==> s[k] == t[k];
    }
  }

  lemma {:induction false} LoggedFromAppend(s: seq<Record>, t: seq<Record>, d: int)
    requires LoggedFrom(s, d) && LoggedFrom(t, d)
    ensures LoggedFrom(s + t, d)
    decreases |t|
  {
    if t == [] {
      assert s + t == s;
    } else {
      assert (s + t)[..|s + t| - 1] == s + t[..|t| - 1];
      assert (s + t)[|s + t| - 1] == t[|t| - 1];
      LoggedFromAppend(s, t[..|t| - 1], d);
    }
  }

  lemma {:induction false} LoggedDeeper(t: seq<Record>, d: int)
    requires LoggedFrom(t, d + 1)
    ensures LoggedFrom(t, d)
    decreases |t|
  {
    if t != [] {
      LoggedDeeper(t[..|t| - 1], d);
    }
  }

  /** The number of records logged at ply `d`. */
  function CountAt(t: seq<Record>, d: int): nat {
    if t == [] then 0 else CountAt(t[..|t| - 1], d) + (if t[|t| - 1].depth == d then 1 else 0)
  }

  lemma {:induction false} CountAtAppend(s: seq<Record>, t: seq<Record>, d: int)
    ensures CountAt(s + t, d) == CountAt(s, d) + CountAt(t, d)
    decreases |t|
  {
    if t == [] {
      assert s + t == s;
    } else {
      assert (s + t)[..|s + t| - 1] == s + t[..|t| - 1];
      assert (s + t)[|s + t| - 1] == t[|t| - 1];
      CountAtAppend(s, t[..|t| - 1], d);
    }
  }

  lemma {:induction false} CountAtDeeper(t: seq<Record>, d: int)
    requires LoggedFrom(t, d + 1)
    ensures CountAt(t, d) == 0
    decreases |t|
  {
    if t != [] {
      CountAtDeeper(t[..|t| - 1], d);
    }
  }

  lemma LoggedOne(r: Record, d: int)
    requires r.depth >= d && Printable(r)
    ensures LoggedFrom([r], d) && CountAt([r], d) == if r.depth == d then 1 else 0
  {
    assert [r][..0] == [];
  }

  /** Logging a record of ply `d` after a child's records keeps the trace logged from `d`
   *  and adds one record at ply `d`. */
  lemma LogAtPly(stopLog: bool, trace: seq<Record>, child: seq<Record>, r: Record, d: int)
    requires LoggedFrom(trace, d) && LoggedFrom(child, d + 1) && r.depth == d && Printable(r)
    ensures LoggedFrom(Log(stopLog, trace + child, r), d)
    ensures !stopLog ==> CountAt(Log(stopLog, trace + child, r), d) == CountAt(trace, d) + 1
  {
    LoggedDeeper(child, d);
    LoggedFromAppend(trace, child, d);
    LoggedOne(r, d);
    LoggedFromAppend(trace + child, [r], d);
    if !stopLog {
      CountAtDeeper(child, d);
      CountAtAppend(trace, child, d);
      CountAtAppend(trace + child, [r], d);
    }
  }

  /** A minimax call entered at ply `d` >= 1, from the root or from a move, logs only records
   *  at ply `d` or deeper, and all of them can be written as lines. */
  lemma {:induction false} MinimaxLogged(e: Evaluator, b: seq<int>, d: int, D: int, p: int, x: int, y: int, stopLog: bool,
                                          o: Outcome)
    requires |b| == CELLS && IsPlayer(p) && d >= 1 && (d == 1 || InBounds(x, y))
    requires o == Minimax(e, b, d, D, p, x, y, stopLog)
    ensures LoggedFrom(o.trace, d)
    decreases D - d + 1, 1, 0, 0
  {
    if d <= D {
      var ms := LegalMoves(b, p);
      var best := if ms == [] then Score(e, b) else Sentinel(p);
      var line := MinimaxLine(d, best, x, y);
      LoggedOne(line, d);
      var r := MinimaxLoop(e, b, d, D, p, ms, x, y, best, x, y, Log(stopLog, [], line), stopLog);
      MinimaxNode(e, b, d, D, p, x, y, stopLog, ms, best, r);
      MinimaxLoopLogged(e, b, d, D, p, ms, x, y, best, x, y, Log(stopLog, [], line), stopLog);
    } else {
      LoggedOne(MinimaxLine(d, Score(e, b), x, y), d);
    }
  }

  lemma {:induction false} MinimaxLoopLogged(e: Evaluator, b: seq<int>, d: int, D: int, p: int, ms: seq<Move>,
                                              ox: int, oy: int, best: int, bestX: int, bestY: int, trace: seq<Record>, stopLog: bool)
    requires |b| == CELLS && IsPlayer(p) && d <= D && AllOnBoard(ms)
    requires d >= 1 && (d == 1 || InBounds(ox, oy)) && LoggedFrom(trace, d)
    ensures LoggedFrom(MinimaxLoop(e, b, d, D, p, ms, ox, oy, best, bestX, bestY, trace, stopLog).trace, d)
    decreases D - d + 1, 0, |ms|, 1
  {
    if ms != [] {
      var best', bestX', bestY', trace' := MinimaxTurnLogged(e, b, d, D, p, ms, ox, oy, best, bestX, bestY, trace, stopLog);
      MinimaxLoopLogged(e, b, d, D, p, ms[1..], ox, oy, best', bestX', bestY', trace', stopLog);
    }
  }

  /** One turn of a minimax node's loop keeps its trace logged from ply `d` and, with logging
   *  on, adds exactly one record at ply `d`: the child's records are all deeper. */
  lemma {:induction false} MinimaxTurnLogged(e: Evaluator, b: seq<int>, d: int, D: int, p: int, ms: seq<Move>,
                          ox: int, oy: int, best: int, bestX: int, bestY: int, trace: seq<Record>, stopLog: bool)
    returns (best': int, bestX': int, bestY': int, trace': seq<Record>)
    requires |b| == CELLS && IsPlayer(p) && d <= D && AllOnBoard(ms) && ms != []
    requires d >= 1 && (d == 1 || InBounds(ox, oy)) && LoggedFrom(trace, d)
    ensures MinimaxLoop(e, b, d, D, p, ms, ox, oy, best, bestX, bestY, trace, stopLog) ==
            MinimaxLoop(e, b, d, D, p, ms[1..], ox, oy, best', bestX', bestY', trace', stopLog)
    ensures LoggedFrom(trace', d)
    ensures !stopLog ==> CountAt(trace', d) == CountAt(trace, d) + 1
    decreases D - d + 1, 0, |ms|, 0
  {
    var (i, j) := ms[0];
    var cb := Flip(b, i, j, p);
    var child := Minimax(e, cb, d + 1, D, -p, i, j, stopLog);
    MinimaxLoopStep(e, b, d, D, p, ms, ox, oy, best, bestX, bestY, trace, stopLog, i, j, cb, child);
    var better := child.value * p > best * p;
    best' := if better then child.value else best;
    bestX', bestY' := if better then i else bestX, if better then j else bestY;
    trace' := ChildLogged(e, b, d, D, p, i, j, stopLog, cb, child, trace, MinimaxLine(d, best', ox, oy));
  }

  /** The node's line logged after the records of the child reached by the move (i, j). */
  lemma {:induction false} ChildLogged(e: Evaluator, b: seq<int>, d: int, D: int, p: int, i: int, j: int, stopLog: bool,
                                       cb: seq<int>, child: Outcome, trace: seq<Record>, line: Record)
    returns (trace': seq<Record>)
    requires |b| == CELLS && IsPlayer(p) && 1 <= d <= D && InBounds(i, j)
    requires cb == Flip(b, i, j, p) && child == Minimax(e, cb, d + 1, D, -p, i, j, stopLog)
    requires LoggedFrom(trace, d) && line.depth == d && Printable(line)
    ensures trace' == Log(stopLog, trace + child.trace, line)
    ensures LoggedFrom(trace', d)
    ensures !stopLog ==> CountAt(trace', d) == CountAt(trace, d) + 1
    decreases D - d, 1, 0, 1
  {
    MinimaxLogged(e, cb, d + 1, D, -p, i, j, stopLog, child);
    LogAtPly(stopLog, trace, child.trace, line, d);
    trace' := Log(stopLog, trace + child.trace, line);
  }

  /** Below the depth limit, with logging on, a minimax node logs 1 + k records at its own
   *  ply, where k is the number of legal moves: one before its loop and one per move. */
  lemma {:induction false} MinimaxRecords(e: Evaluator, b: seq<int>, d: int, D: int, p: int, x: int, y: int)
    requires |b| == CELLS && IsPlayer(p) && 1 <= d <= D && (d == 1 || InBounds(x, y))
    ensures CountAt(Minimax(e, b, d, D, p, x, y, false).trace, d) == 1 + |LegalMoves(b, p)|
  {
    var ms := LegalMoves(b, p);
    var best := if ms == [] then Score(e, b) else Sentinel(p);
    var line := MinimaxLine(d, best, x, y);
    var r := MinimaxLoop(e, b, d, D, p, ms, x, y, best, x, y, [line], false);
    MinimaxNodeRecords(e, b, d, D, p, x, y, ms, best, line, r);
    MinimaxNode(e, b, d, D, p, x, y, false, ms, best, r);
  }

  lemma {:induction false} MinimaxNodeRecords(e: Evaluator, b: seq<int>, d: int, D: int, p: int, x: int, y: int,
                                               ms: seq<Move>, best: int, line: Record, r: Progress)
    requires |b| == CELLS && IsPlayer(p) && 1 <= d <= D && (d == 1 || InBounds(x, y)) && AllOnBoard(ms)
    requires line == MinimaxLine(d, best, x, y) && r == MinimaxLoop(e, b, d, D, p, ms, x, y, best, x, y, [line], false)
    ensures Log(false, [], line) == [line] && CountAt(r.trace, d) == 1 + |ms|
  {
    LoggedOne(line, d);
    assert Log(false, [], line) == [line];
    MinimaxLoopRecords(e, b, d, D, p, ms, x, y, best, x, y, [line]);
  }

  lemma {:induction false} MinimaxLoopRecords(e: Evaluator, b: seq<int>, d: int, D: int, p: int, ms: seq<Move>,
                                               ox: int, oy: int, best: int, bestX: int, bestY: int, trace: seq<Record>)
    requires |b| == CELLS && IsPlayer(p) && d <= D && AllOnBoard(ms)
    requires d >= 1 && (d == 1 || InBounds(ox, oy)) && LoggedFrom(trace, d)
    ensures CountAt(MinimaxLoop(e, b, d, D, p, ms, ox, oy, best, bestX, bestY, trace, false).trace, d) == CountAt(trace, d) + |ms|
    decreases |ms|
  {
    if ms != [] {
      var best', bestX', bestY', trace' := MinimaxTurnLogged(e, b, d, D, p, ms, ox, oy, best, bestX, bestY, trace, false);
      MinimaxLoopRecords(e, b, d, D, p, ms[1..], ox, oy, best', bestX', bestY', trace');
    }
  }

}
