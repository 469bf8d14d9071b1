/**
 * The game driver (ReversiGame.cpp): `placePiece`, `isGameOver` and the turn loop of
 * `solve`.  The turn loop is specified by `Turn`, one pass of the loop body, and `Play`,
 * the whole loop, over a `Game` value holding what the loop changes: the board, the
 * snapshot kept in `mOutBoard`, the side to move, `canMove`, `passCount`, the logging
 * latch, the records logged so far and the step counter.
 */
module Game {
  import opened Constants
  import opened MoveRules
  import opened Evaluation
  import opened Trace
  import opened GameTree
  import opened Search

  // ----- Empty cells -----

  /** No cell of the board is EMPTY_CELL. */
  predicate Full(b: seq<int>) {
    forall c :: 0 <= c < |b| ==> b[c] != EMPTY_CELL
  }

  /** The number of EMPTY_CELL cells among the first `n`. */
  function EmptyIn(b: seq<int>, n: int): nat
    requires 0 <= n <= |b|
    decreases n
  {
    if n == 0 then 0 else EmptyIn(b, n - 1) + (if b[n - 1] == EMPTY_CELL then 1 else 0)
  }

  function EmptyCount(b: seq<int>): nat {
    EmptyIn(b, |b|)
  }

  lemma {:induction false} NoneEmptyIn(b: seq<int>, n: int)
    requires 0 <= n <= |b|
    ensures EmptyIn(b, n) == 0 <==> forall c :: 0 <= c < n ==> b[c] != EMPTY_CELL
    decreases n
  {
    if n > 0 {
      NoneEmptyIn(b, n - 1);
    }
  }

  /** A board is full exactly when it has no empty cell left to count. */
  lemma FullIffNoEmpty(b: seq<int>)
    ensures Full(b) <==> EmptyCount(b) == 0
  {
    NoneEmptyIn(b, |b|);
  }

  /** Filling the one empty cell `k`, and nothing else, lowers the count by one. */
  lemma {:induction false} EmptyInFilled(s: seq<int>, t: seq<int>, k: int, n: int)
    requires |s| == |t| && 0 <= n <= |s| && 0 <= k < |s| && s[k] == EMPTY_CELL
    requires forall c :: 0 <= c < |s| ==> (t[c] == EMPTY_CELL <==> s[c] == EMPTY_CELL && c != k)
    ensures EmptyIn(t, n) + (if k < n then 1 else 0) == EmptyIn(s, n)
    decreases n
  {
    if n > 0 {
      EmptyInFilled(s, t, k, n - 1);
    }
  }

  // ----- placePiece -----

  /** The board `placePiece` leaves: unchanged on an occupied target, else the flipped board. */
  function Place(b: seq<int>, x: int, y: int, p: int): (r: seq<int>)
    requires |b| == CELLS && InBounds(x, y)
    ensures |r| == CELLS
  {
    if b[Idx(x, y)] != EMPTY_CELL then b else Flip(b, x, y, p)
  }

  /** A legal placement keeps the board well formed, puts `p` on the target and fills
   *  exactly one empty cell. */
  lemma PlaceFillsOne(b: seq<int>, x: int, y: int, p: int)
    requires WellFormed(b) && IsPlayer(p) && InBounds(x, y) && IsLegal(b, x, y, p)
    ensures var r := Place(b, x, y, p);
      WellFormed(r) && r[Idx(x, y)] == p && EmptyCount(r) == EmptyCount(b) - 1
  {
    var r := Flip(b, x, y, p);
    FlipWellFormed(b, x, y, p);
    forall c | 0 <= c < CELLS
      ensures r[c] == EMPTY_CELL <==> b[c] == EMPTY_CELL && c != Idx(x, y)
    {
      FlipFillsOrigin(b, x, y, p, c);
    }
    FlipFillsOrigin(b, x, y, p, 0);
    EmptyInFilled(b, r, Idx(x, y), CELLS);
  }

  /** A full board has no legal move for either side. */
  lemma FullHasNoMove(b: seq<int>, p: int)
    requires |b| == CELLS && Full(b)
    ensures !exists i, j :: InBounds(i, j) && IsLegal(b, i, j, p)
  {
  }

  // ----- The searched move -----

  /** At the root (ply 1, move (-1, -1)) the search moves exactly when the side has a
   *  legal move and the cutoff allows one ply, and the move it names is legal. */
  lemma SearchedMove(a: Algorithm, e: Evaluator, b: seq<int>, D: int, p: int, stopLog: bool)
    requires WellFormed(b) && IsPlayer(p)
    ensures var o := Searched(a, e, b, 1, D, p, -1, -1, stopLog);
      (o.moved <==> 1 <= D && exists i, j :: InBounds(i, j) && IsLegal(b, i, j, p)) &&
      (o.moved ==> InBounds(o.x, o.y) && IsLegal(b, o.x, o.y, p))
  {
    SearchesAgree(e, b, 1, D, p, -1, -1, stopLog);
    MovedIffLegalMove(e, b, 1, D, p, -INF, INF, -1, -1, stopLog);
    var m := Minimax(e, b, 1, D, p, -1, -1, stopLog);
    if m.moved {
      var i, j :| InBounds(i, j) && IsLegal(b, i, j, p);
      LegalMovesExactly(b, p);
      assert (i, j) in LegalMoves(b, p);
      var k := MinimaxMove(e, b, 1, D, p, -1, -1, stopLog);
    }
  }

  /** Once the latch is set the searches log nothing. */
  lemma SearchedSilent(a: Algorithm, e: Evaluator, b: seq<int>, D: int, p: int)
    requires |b| == CELLS && IsPlayer(p)
    ensures Searched(a, e, b, 1, D, p, -1, -1, true).trace == []
  {
    match a
    case MiniMaxSearch => MinimaxSilent(e, b, 1, D, p, -1, -1);
    case AlphaBetaSearch => AlphaBetaSilent(e, b, 1, D, p, -INF, INF, -1, -1);
  }

  // ----- The turn loop -----

  /** What one pass of the loop in `solve` reads and writes. */
  datatype Game = Game(board: seq<int>, snapshot: seq<int>, player: int, canMove: bool, passCount: int,
                       stopLog: bool, log: seq<Record>, steps: int)

  /** The loop either goes round again or breaks out. */
  datatype Step = Next(g: Game) | Done(g: Game)

  /** The state at the loop head: black to move, no pass yet, `canMove` true. */
  function Start(board: seq<int>, snapshot: seq<int>, stopLog: bool, log: seq<Record>): Game {
    Game(board, snapshot, MAX_PLAYER, true, 0, stopLog, log, 0)
  }

  /** What holds at the head of the loop; at most one pass is pending there. */
  predicate Playable(g: Game) {
    WellFormed(g.board) && |g.snapshot| == CELLS && IsPlayer(g.player) && 0 <= g.passCount <= 1 && g.steps >= 0
  }

  /** Two units per empty cell, one for a pass still allowed. */
  function Measure(g: Game): nat
    requires Playable(g)
  {
    2 * EmptyCount(g.board) + 1 - g.passCount
  }

  /** The rest of the loop body once the search has returned `o`. */
  function Advance(g: Game, o: Outcome): Step
    requires Playable(g) && (o.moved ==> InBounds(o.x, o.y))
  {
    var h := g.(snapshot := g.board, canMove := o.moved, log := g.log + o.trace, steps := g.steps + 1);
    if !o.moved then
      if Full(g.board) then Done(h)
      else if g.passCount + 1 >= 2 then Done(h.(passCount := g.passCount + 1))
      else Next(h.(passCount := g.passCount + 1, player := -g.player, stopLog := true))
    else
      Next(h.(board := Place(g.board, o.x, o.y, g.player), passCount := 0, player := -g.player, stopLog := true))
  }

  /** What the search of one loop pass returns. */
  function TurnSearch(a: Algorithm, e: Evaluator, D: int, g: Game): Outcome
    requires Playable(g)
  {
    Searched(a, e, g.board, 1, D, g.player, -1, -1, g.stopLog)
  }

  /** One pass of the loop body. */
  function Turn(a: Algorithm, e: Evaluator, D: int, g: Game): Step
    requires Playable(g)
  {
    SearchedMove(a, e, g.board, D, g.player, g.stopLog);
    Advance(g, TurnSearch(a, e, D, g))
  }

  /** The whole loop, run from `g` until it breaks out. */
  function Play(a: Algorithm, e: Evaluator, D: int, g: Game): Game
    requires Playable(g)
    decreases Measure(g)
  {
    TurnProgress(a, e, D, g);
    match Turn(a, e, D, g)
    case Done(h) => h
    case Next(h) => Play(a, e, D, h)
  }

  /** The loop from `g` is one pass followed, unless it breaks out, by the loop from there. */
  lemma PlayStep(a: Algorithm, e: Evaluator, D: int, g: Game)
    requires Playable(g)
    ensures var s := Turn(a, e, D, g);
      (s.Done? ==> Play(a, e, D, g) == s.g) &&
      (s.Next? ==> Playable(s.g) && Measure(s.g) < Measure(g) && Play(a, e, D, g) == Play(a, e, D, s.g))
  {
    TurnProgress(a, e, D, g);
  }

  /** Every pass counts a step, snapshots the board and appends the search's records. */
  lemma TurnRecords(a: Algorithm, e: Evaluator, D: int, g: Game)
    requires Playable(g)
    ensures var s := Turn(a, e, D, g); var o := TurnSearch(a, e, D, g);
      s.g.steps == g.steps + 1 && s.g.snapshot == g.board && s.g.log == g.log + o.trace &&
      s.g.canMove == o.moved
  {
  }

  /** A pass that moves plays the searched move, which is legal, and resets `passCount`. */
  lemma TurnMoves(a: Algorithm, e: Evaluator, D: int, g: Game)
    requires Playable(g)
    ensures var s := Turn(a, e, D, g); var o := TurnSearch(a, e, D, g);
      (s.g.canMove <==> 1 <= D && exists i, j :: InBounds(i, j) && IsLegal(g.board, i, j, g.player)) &&
      (s.g.canMove ==>
        (s.Next? && s.g.passCount == 0 && InBounds(o.x, o.y) &&
         IsLegal(g.board, o.x, o.y, g.player) && s.g.board == Flip(g.board, o.x, o.y, g.player)))
  {
    SearchedMove(a, e, g.board, D, g.player, g.stopLog);
  }

  /** A pass without a move leaves the board alone; it ends the game on a full board,
   *  otherwise it counts a pass, and the second pass in a row ends the game. */
  lemma TurnPasses(a: Algorithm, e: Evaluator, D: int, g: Game)
    requires Playable(g)
    ensures var s := Turn(a, e, D, g);
      !s.g.canMove ==>
        s.g.board == g.board &&
        (s.Done? <==> Full(g.board) || g.passCount == 1) &&
        (Full(g.board) ==> s.g.passCount == g.passCount) &&
        (!Full(g.board) ==> s.g.passCount == g.passCount + 1)
  {
  }

  /** On a full board the next pass ends the game. */
  lemma TurnOnFullBoard(a: Algorithm, e: Evaluator, D: int, g: Game)
    requires Playable(g) && Full(g.board)
    ensures Turn(a, e, D, g).Done?
  {
    SearchedMove(a, e, g.board, D, g.player, g.stopLog);
    FullHasNoMove(g.board, g.player);
  }

  /** A pass that goes round again hands the turn over, sets the latch, keeps the loop
   *  condition true and the state playable, and lowers the measure; a pass that breaks
   *  out changes neither the side nor the latch. */
  lemma TurnProgress(a: Algorithm, e: Evaluator, D: int, g: Game)
    requires Playable(g)
    ensures var s := Turn(a, e, D, g);
      (s.Next? ==> s.g.player == -g.player && s.g.stopLog && Playable(s.g) &&
                   (s.g.canMove || s.g.passCount < 2) && Measure(s.g) < Measure(g)) &&
      (s.Done? ==> s.g.player == g.player && s.g.stopLog == g.stopLog && !s.g.canMove)
  {
    var o := TurnSearch(a, e, D, g);
    SearchedMove(a, e, g.board, D, g.player, g.stopLog);
    if o.moved {
      PlaceFillsOne(g.board, o.x, o.y, g.player);
    }
  }

  /** The loop ends without a move, on a full board or after two passes in a row, within
   *  2 * (empty cells) + 2 steps; the latch is set exactly when more than one step ran. */
  lemma {:induction false} PlayEnds(a: Algorithm, e: Evaluator, D: int, g: Game)
    requires Playable(g)
    ensures var r := Play(a, e, D, g);
      !r.canMove && (Full(r.board) || r.passCount == 2) &&
      g.steps < r.steps <= g.steps + 2 * EmptyCount(g.board) + 2 - g.passCount &&
      (r.stopLog <==> g.stopLog || r.steps > g.steps + 1)
    decreases Measure(g)
  {
    TurnProgress(a, e, D, g);
    TurnRecords(a, e, D, g);
    TurnPasses(a, e, D, g);
    match Turn(a, e, D, g)
    case Done(h) =>
    case Next(h) =>
      PlayEnds(a, e, D, h);
  }

  /** From a state with the latch set, the loop logs nothing more. */
  lemma {:induction false} PlayLatched(a: Algorithm, e: Evaluator, D: int, g: Game)
    requires Playable(g) && g.stopLog
    ensures Play(a, e, D, g).log == g.log
    decreases Measure(g)
  {
    TurnProgress(a, e, D, g);
    TurnRecords(a, e, D, g);
    SearchedSilent(a, e, g.board, D, g.player);
    match Turn(a, e, D, g)
    case Done(h) =>
    case Next(h) =>
      PlayLatched(a, e, D, h);
  }

  /** Only the first step's search is logged. */
  lemma PlayLogsFirstSearch(a: Algorithm, e: Evaluator, D: int, g: Game)
    requires Playable(g)
    ensures Play(a, e, D, g).log == g.log + TurnSearch(a, e, D, g).trace
  {
    TurnProgress(a, e, D, g);
    TurnRecords(a, e, D, g);
    match Turn(a, e, D, g)
    case Done(h) =>
    case Next(h) =>
      PlayLatched(a, e, D, h);
  }

  // ----- The game object -----

  class ReversiGame {
    const mBoard: array<int>
    /** The board as it was before the current step's move. */
    const mOutBoard: array<int>
    var mAlgorithm: Algorithm
    var mEvalFunc: Evaluator
    var mCutOffDepth: int
    var mTask: int
    /** The latch: once set, the searches log nothing. */
    var stopLog: bool
    /** The records logged so far. */
    var log: seq<Record>

    predicate Valid() {
      mBoard.Length == CELLS && mOutBoard.Length == CELLS && mBoard != mOutBoard
    }

    /** A game on `board`, set up for `task` as the command line does. */
    constructor (board: seq<int>, task: int, cutOffDepth: int)
      requires WellFormed(board)
      ensures Valid() && fresh(mBoard) && fresh(mOutBoard) && mBoard[..] == board
      ensures mTask == task && mAlgorithm == AlgorithmFor(task) && mEvalFunc == EvaluatorFor(task)
      ensures mCutOffDepth == cutOffDepth && !stopLog && log == []
    {
      mBoard := new int[CELLS](i => if 0 <= i < |board| then board[i] else EMPTY_CELL);
      mOutBoard := new int[CELLS](i => EMPTY_CELL);
      mTask := task;
      mAlgorithm := AlgorithmFor(task);
      mEvalFunc := EvaluatorFor(task);
      mCutOffDepth := cutOffDepth;
      stopLog := false;
      log := [];
    }

    /** Places `player` at (x, y) in place, flipping what `validMove` would flip. */
    method PlacePiece(x: int, y: int, player: int) returns (valid: bool)
      requires Valid() && InBounds(x, y)
      modifies mBoard
      ensures mBoard[..] == Place(old(mBoard[..]), x, y, player)
      ensures valid == IsLegal(old(mBoard[..]), x, y, player)
    {
      if mBoard[Idx(x, y)] != EMPTY_CELL {
        return false;
      }
      valid := false;
      ghost var b := mBoard[..];
      for i := 0 to DIRECTION
        invariant mBoard[..] == FlipDirs(b, x, y, player, i)
        invariant valid == Qualifies(b, x, y, player, i)
      {
        var dX, dY := DIRECTIONS[i].0, DIRECTIONS[i].1;
        assert (dX, dY) == Dir(i);
        OffRay(b, x, y, player, i);
        FlipDirsNext(b, x, y, player, i);
        var flipped := FlipDirection(mBoard, b, x, y, dX, dY, player);
        if flipped {
          valid := true;
        }
      }
    }

    /** True exactly when no cell of the board is empty. */
    method IsGameOver() returns (over: bool)
      requires Valid()
      ensures over == Full(mBoard[..])
    {
      for i := 0 to BOARD_SIZE
        invariant forall c :: 0 <= c < i * BOARD_SIZE ==> mBoard[c] != EMPTY_CELL
      {
        for j := 0 to BOARD_SIZE
          invariant forall c :: 0 <= c < i * BOARD_SIZE + j ==> mBoard[c] != EMPTY_CELL
        {
          if mBoard[Idx(i, j)] == EMPTY_CELL {
            assert mBoard[..][Idx(i, j)] == EMPTY_CELL;
            return false;
          }
        }
      }
      return true;
    }

    /** The loop state of `solve`, with the board and the snapshot read from the arrays. */
    function State(player: int, canMove: bool, passCount: int, steps: int): Game
      reads this, mBoard, mOutBoard
    {
      Game(mBoard[..], mOutBoard[..], player, canMove, passCount, stopLog, log, steps)
    }

    /** Plays the game out from the current board, black first; returns the step count. */
    method Solve() returns (stepCount: int)
      requires Valid() && WellFormed(mBoard[..])
      modifies this`stopLog, this`log, mBoard, mOutBoard
      ensures var r := Play(mAlgorithm, mEvalFunc, mCutOffDepth,
                            Start(old(mBoard[..]), old(mOutBoard[..]), old(stopLog), old(log)));
        stepCount == r.steps && mBoard[..] == r.board && mOutBoard[..] == r.snapshot &&
        stopLog == r.stopLog && log == r.log
    {
      stepCount := 0;
      var player := MAX_PLAYER;
      var canMove := true;
      var passCount := 0;
      ghost var target := Play(mAlgorithm, mEvalFunc, mCutOffDepth, State(player, canMove, passCount, stepCount));
      while canMove || passCount < 2
        invariant Playable(State(player, canMove, passCount, stepCount))
        invariant Play(mAlgorithm, mEvalFunc, mCutOffDepth, State(player, canMove, passCount, stepCount)) == target
        decreases Measure(State(player, canMove, passCount, stepCount))
      {
        ghost var g := State(player, canMove, passCount, stepCount);
        PlayStep(mAlgorithm, mEvalFunc, mCutOffDepth, g);
        var stop;
        player, canMove, passCount, stepCount, stop := SolveStep(player, canMove, passCount, stepCount);
        if stop {
          break;
        }
      }
    }

    /** One pass of the loop body of `solve`; `stop` tells that it breaks out of the loop. */
    method SolveStep(player: int, canMove: bool, passCount: int, stepCount: int)
      returns (player': int, canMove': bool, passCount': int, stepCount': int, stop: bool)
      requires Valid() && Playable(State(player, canMove, passCount, stepCount))
      modifies this`stopLog, this`log, mBoard, mOutBoard
      ensures var s := Turn(mAlgorithm, mEvalFunc, mCutOffDepth, old(State(player, canMove, passCount, stepCount)));
        stop == s.Done? && State(player', canMove', passCount', stepCount') == s.g
    {
      ghost var g := State(player, canMove, passCount, stepCount);
      ghost var s := Turn(mAlgorithm, mEvalFunc, mCutOffDepth, g);
      player', passCount' := player, passCount;
      stepCount' := stepCount + 1;
      var x, y := -1, -1;
      canMove' := false;
      forall c | 0 <= c < CELLS {
        mOutBoard[c] := mBoard[c];
      }
      assert mOutBoard[..] == g.board;
      var value, trace;
      value, x, y, canMove', trace := RunSearch(mAlgorithm, mBoard, 1, mCutOffDepth, player, mEvalFunc, x, y, canMove', stopLog);
      log := log + trace;
      ghost var o := TurnSearch(mAlgorithm, mEvalFunc, mCutOffDepth, g);
      SearchedMove(mAlgorithm, mEvalFunc, g.board, mCutOffDepth, player, g.stopLog);
      assert s == Advance(g, o);
      assert canMove' == o.moved && log == g.log + o.trace && mBoard[..] == g.board;
      if !canMove' {
        var over := IsGameOver();
        if over {
          return player', canMove', passCount', stepCount', true;
        }
        passCount' := passCount' + 1;
        if passCount' >= 2 {
          return player', canMove', passCount', stepCount', true;
        }
      } else {
        passCount' := 0;
        var placed := PlacePiece(x, y, player);
      }
      player' := -player';
      if !stopLog {
        stopLog := true;
      }
      stop := false;
    }
  }
}
