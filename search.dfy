/**
 * The two searches (reversi.cpp: miniMax, alphaBeta and the root alphaBeta wrapper) and the
 * task-code selection of search and evaluator.  The board array is only read: the searches
 * have no `modifies` clause.  Each call builds its children in a scratch array of its own.
 * Each method returns what the C function hands back through its result and its reference
 * parameters, plus the records it logs, and is proved equal to the corresponding function
 * of GameTree.
 */
module Search {
  import opened Constants
  import opened MoveRules
  import opened Evaluation
  import opened Trace
  import opened GameTree

  /** The search a task runs. */
  datatype Algorithm = MiniMaxSearch | AlphaBetaSearch

  /** Task 1 runs minimax; every other task runs alpha-beta. */
  function AlgorithmFor(task: int): (a: Algorithm)
    ensures a == MiniMaxSearch <==> task == MINIMAX
  {
    if task == MINIMAX then MiniMaxSearch else AlphaBetaSearch
  }

  /** Tasks 1 and 2 count pieces; every other task uses the positional weights. */
  function EvaluatorFor(task: int): (e: Evaluator)
    ensures e == PieceCount <==> task == MINIMAX || task == ALPHA_BETA_PIECE
  {
    if task == MINIMAX || task == ALPHA_BETA_PIECE then PieceCount else PositionalWeight
  }

  /** What the selected search returns from the root. */
  function Searched(a: Algorithm, e: Evaluator, b: seq<int>, d: int, D: int, p: int, x: int, y: int, stopLog: bool): Outcome
    requires |b| == CELLS && IsPlayer(p)
  {
    match a
    case MiniMaxSearch => Minimax(e, b, d, D, p, x, y, stopLog)
    case AlphaBetaSearch => GameTree.AlphaBetaRoot(e, b, d, D, p, x, y, stopLog)
  }

  /** Both searches agree on the root value, the move and whether a move exists. */
  lemma SearchesAgree(e: Evaluator, b: seq<int>, d: int, D: int, p: int, x: int, y: int, stopLog: bool)
    requires WellFormed(b) && IsPlayer(p)
    ensures var m := Searched(MiniMaxSearch, e, b, d, D, p, x, y, stopLog);
      var a := Searched(AlphaBetaSearch, e, b, d, D, p, x, y, stopLog);
      a.value == m.value == Value(e, b, d, D, p) && a.x == m.x && a.y == m.y && a.moved == m.moved
  {
    AlphaBetaRootIsMinimax(e, b, d, D, p, x, y, stopLog);
    MinimaxIsValue(e, b, d, D, p, x, y, stopLog);
  }

  /** Whatever the task code, the root search returns the reference value under the task's
   *  evaluator, reports a move exactly when the cutoff allows one and a legal move exists, and
   *  that move is the first legal move in row-major order that reaches the value. */
  lemma TaskSearch(task: int, b: seq<int>, D: int, p: int, stopLog: bool)
    requires WellFormed(b) && IsPlayer(p)
    ensures var e := EvaluatorFor(task); var ms := LegalMoves(b, p);
      var o := Searched(AlgorithmFor(task), e, b, 1, D, p, -1, -1, stopLog);
      o.value == Value(e, b, 1, D, p) &&
      (o.moved <==> 1 <= D && ms != []) &&
      (o.moved ==>
        exists k :: 0 <= k < |ms| && ms[k] == (o.x, o.y) && ChildValue(e, b, 1, D, p, ms[k]) == o.value &&
          (forall l :: 0 <= l < k ==> Better(p, o.value, ChildValue(e, b, 1, D, p, ms[l]))))
  {
    var e := EvaluatorFor(task);
    var ms := LegalMoves(b, p);
    SearchesAgree(e, b, 1, D, p, -1, -1, stopLog);
    MovedIffLegalMove(e, b, 1, D, p, -INF, INF, -1, -1, stopLog);
    LegalMovesExactly(b, p);
    if ms != [] {
      assert ms[0] in ms;
      assert InBounds(ms[0].0, ms[0].1) && IsLegal(b, ms[0].0, ms[0].1, p);
      if 1 <= D {
        var k := MinimaxMove(e, b, 1, D, p, -1, -1, stopLog);
      }
    }
  }

  /** Collects the legal moves of `player` in row-major order, using `scratch` as the
   *  output board of each check. */
  method CollectMoves(board: array<int>, scratch: array<int>, player: int) returns (moves: seq<Move>)
    requires board.Length == CELLS && scratch.Length == CELLS && board != scratch
    modifies scratch
    ensures moves == LegalMoves(board[..], player)
  {
    moves := [];
    for i := 0 to BOARD_SIZE
      invariant moves == MovesBefore(board[..], player, i)
    {
      for j := 0 to BOARD_SIZE
        invariant moves == MovesBefore(board[..], player, i) + RowMoves(board[..], player, i, j)
      {
        var valid := ValidMove(board, scratch, i, j, player);
        if valid {
          moves := moves + [(i, j)];
        }
      }
    }
  }

  /** miniMax: the value of `board` for `playerType` at ply `cutOffDepth`, the best move in
   *  (x', y') and `canMove` raised when the side to move has a move. */
  method MiniMax(board: array<int>, cutOffDepth: int, maxDepth: int, playerType: int, evalFunc: Evaluator,
                 x: int, y: int, canMove: bool, stopLog: bool)
    returns (value: int, x': int, y': int, canMove': bool, trace: seq<Record>)
    requires board.Length == CELLS && IsPlayer(playerType)
    ensures var o := Minimax(evalFunc, board[..], cutOffDepth, maxDepth, playerType, x, y, stopLog);
      value == o.value && x' == o.x && y' == o.y && trace == o.trace && canMove' == (canMove || o.moved)
    decreases maxDepth - cutOffDepth + 1, 2
  {
    if cutOffDepth > maxDepth {
      value := Evaluate(evalFunc, board);
      trace := Log(stopLog, [], MinimaxLine(cutOffDepth, value, x, y));
      return value, x, y, canMove, trace;
    }
    ghost var b := board[..];
    var tempBoard := new int[CELLS];
    var moves := CollectMoves(board, tempBoard, playerType);
    var moved := moves != [];

    var bestVal := -playerType * INF;
    if !moved {
      bestVal := Evaluate(evalFunc, board);
    }
    canMove' := canMove || moved;
    trace := Log(stopLog, [], MinimaxLine(cutOffDepth, bestVal, x, y));
    ghost var best0 := bestVal;
    LegalMovesAllLegal(b, playerType);
    value, x', y', trace := MiniMaxMoves(board, tempBoard, b, cutOffDepth, maxDepth, playerType, evalFunc, moves, x, y,
                                         bestVal, trace, stopLog);
    MinimaxNode(evalFunc, b, cutOffDepth, maxDepth, playerType, x, y, stopLog, moves, best0,
                Progress(value, x', y', trace));
  }

  /** miniMax's loop over the legal moves `moves` of `board`: starting from `bestVal` and the
   *  move (x, y), every move is searched in turn and the best value and move are kept. */
  method MiniMaxMoves(board: array<int>, tempBoard: array<int>, ghost b: seq<int>, cutOffDepth: int, maxDepth: int,
                      playerType: int, evalFunc: Evaluator, moves: seq<Move>, x: int, y: int,
                      bestVal: int, trace: seq<Record>, stopLog: bool)
    returns (bestVal': int, x': int, y': int, trace': seq<Record>)
    requires board.Length == CELLS && tempBoard.Length == CELLS && board != tempBoard
    requires IsPlayer(playerType) && cutOffDepth <= maxDepth && board[..] == b
    requires AllOnBoard(moves) && AllLegal(b, moves, playerType)
    modifies tempBoard
    ensures Progress(bestVal', x', y', trace') ==
            MinimaxLoop(evalFunc, b, cutOffDepth, maxDepth, playerType, moves, x, y, bestVal, x, y, trace, stopLog)
    decreases maxDepth - cutOffDepth + 1, 1
  {
    bestVal', x', y', trace' := bestVal, x, y, trace;
    ghost var target := MinimaxLoop(evalFunc, b, cutOffDepth, maxDepth, playerType, moves, x, y, bestVal, x, y, trace, stopLog);
    var nCanMove := false;
    for m := 0 to |moves|
      invariant board[..] == b
      invariant MinimaxLoop(evalFunc, b, cutOffDepth, maxDepth, playerType, moves[m..], x, y, bestVal', x', y', trace', stopLog) == target
    {
      var (i, j) := moves[m];
      assert moves[m..][0] == (i, j) && moves[m..][1..] == moves[m + 1..];
      assert IsLegal(b, i, j, playerType);
      bestVal', x', y', nCanMove, trace' := MiniMaxTry(board, tempBoard, b, cutOffDepth, maxDepth, playerType, evalFunc,
                                                       moves[m..], i, j, x, y, bestVal', x', y', nCanMove, trace', stopLog);
    }
  }

  /** One turn of miniMax's loop over its moves: re-validates the move (i, j) into
   *  `tempBoard`, searches the child and keeps its value when it is strictly better for
   *  `playerType`, then logs the node with its own label (ox, oy). */
  method MiniMaxTry(board: array<int>, tempBoard: array<int>, ghost b: seq<int>, cutOffDepth: int, maxDepth: int,
                    playerType: int, evalFunc: Evaluator, ghost ms: seq<Move>, i: int, j: int, ox: int, oy: int,
                    bestVal: int, bestX: int, bestY: int, nCanMove: bool, trace: seq<Record>, stopLog: bool)
    returns (bestVal': int, bestX': int, bestY': int, nCanMove': bool, trace': seq<Record>)
    requires board.Length == CELLS && tempBoard.Length == CELLS && board != tempBoard
    requires IsPlayer(playerType) && cutOffDepth <= maxDepth && board[..] == b
    requires AllOnBoard(ms) && ms != [] && ms[0] == (i, j) && IsLegal(b, i, j, playerType)
    modifies tempBoard
    ensures MinimaxLoop(evalFunc, b, cutOffDepth, maxDepth, playerType, ms, ox, oy, bestVal, bestX, bestY, trace, stopLog) ==
            MinimaxLoop(evalFunc, b, cutOffDepth, maxDepth, playerType, ms[1..], ox, oy, bestVal', bestX', bestY', trace', stopLog)
    decreases maxDepth - cutOffDepth + 1, 0
  {
    bestVal', bestX', bestY', nCanMove', trace' := bestVal, bestX, bestY, nCanMove, trace;
    var valid := ValidMove(board, tempBoard, i, j, playerType);
    if valid {
      var childValue, childX, childY, childCanMove, childTrace :=
        MiniMax(tempBoard, cutOffDepth + 1, maxDepth, -playerType, evalFunc, i, j, nCanMove, stopLog);
      ghost var child := Minimax(evalFunc, tempBoard[..], cutOffDepth + 1, maxDepth, -playerType, i, j, stopLog);
      MinimaxLoopStep(evalFunc, b, cutOffDepth, maxDepth, playerType, ms, ox, oy, bestVal, bestX, bestY, trace, stopLog,
                      i, j, tempBoard[..], child);
      nCanMove' := childCanMove;
      if childValue * playerType > bestVal * playerType {
        bestX', bestY' := i, j;
        bestVal' := childValue;
      }
      trace' := Log(stopLog, trace + childTrace, MinimaxLine(cutOffDepth, bestVal', ox, oy));
    } else {
      assert false;
    }
  }

  /** alphaBeta with the window (alpha, beta): fail-soft value, best move and `canMove`. */
  method AlphaBeta(board: array<int>, cutOffDepth: int, maxDepth: int, playerType: int, evalFunc: Evaluator,
                   alpha: int, beta: int, x: int, y: int, canMove: bool, stopLog: bool)
    returns (value: int, x': int, y': int, canMove': bool, trace: seq<Record>)
    requires board.Length == CELLS && IsPlayer(playerType) && alpha < beta
    ensures var o := GameTree.AlphaBeta(evalFunc, board[..], cutOffDepth, maxDepth, playerType, alpha, beta, x, y, stopLog);
      value == o.value && x' == o.x && y' == o.y && trace == o.trace && canMove' == (canMove || o.moved)
    decreases maxDepth - cutOffDepth + 1, 2
  {
    if cutOffDepth > maxDepth {
      value := Evaluate(evalFunc, board);
      trace := Log(stopLog, [], AlphaBetaLine(cutOffDepth, value, alpha, beta, x, y, false));
      return value, x, y, canMove, trace;
    }
    ghost var b := board[..];
    var outBoard := new int[CELLS];
    var moves := CollectMoves(board, outBoard, playerType);
    var moved := moves != [];

    var bestVal := -playerType * INF;
    if !moved {
      bestVal := Evaluate(evalFunc, board);
    }
    canMove' := canMove || moved;
    trace := Log(stopLog, [], AlphaBetaLine(cutOffDepth, bestVal, alpha, beta, x, y, false));
    ghost var best0 := bestVal;
    LegalMovesAllLegal(b, playerType);
    var a, z, cut;
    a, z, value, x', y', cut, trace := AlphaBetaMoves(board, outBoard, b, cutOffDepth, maxDepth, playerType, evalFunc,
                                                      moves, x, y, alpha, beta, bestVal, trace, stopLog);
    AlphaBetaNode(evalFunc, b, cutOffDepth, maxDepth, playerType, alpha, beta, x, y, stopLog, moves, best0,
                  Frame(a, z, value, x', y', cut), trace);
  }

  /** alphaBeta's loop over the legal moves `moves` of `board`, with the window
   *  (alpha, beta): every move is searched in turn until one closes the window. */
  method AlphaBetaMoves(board: array<int>, outBoard: array<int>, ghost b: seq<int>, cutOffDepth: int, maxDepth: int,
                        playerType: int, evalFunc: Evaluator, moves: seq<Move>, x: int, y: int,
                        alpha: int, beta: int, bestVal: int, trace: seq<Record>, stopLog: bool)
    returns (alpha': int, beta': int, bestVal': int, x': int, y': int, cut: bool, trace': seq<Record>)
    requires board.Length == CELLS && outBoard.Length == CELLS && board != outBoard
    requires IsPlayer(playerType) && cutOffDepth <= maxDepth && board[..] == b && alpha < beta
    requires AllOnBoard(moves) && AllLegal(b, moves, playerType)
    modifies outBoard
    ensures (Frame(alpha', beta', bestVal', x', y', cut), trace') ==
            AlphaBetaLoop(evalFunc, b, cutOffDepth, maxDepth, playerType, moves, x, y,
                          Frame(alpha, beta, bestVal, x, y, false), trace, stopLog)
    decreases maxDepth - cutOffDepth + 1, 1
  {
    alpha', beta', bestVal', x', y', cut, trace' := alpha, beta, bestVal, x, y, false, trace;
    ghost var target := AlphaBetaLoop(evalFunc, b, cutOffDepth, maxDepth, playerType, moves, x, y,
                                      Frame(alpha, beta, bestVal, x, y, false), trace, stopLog);
    var nCanMove := false;
    for m := 0 to |moves|
      invariant board[..] == b && alpha' < beta' && !cut
      invariant AlphaBetaLoop(evalFunc, b, cutOffDepth, maxDepth, playerType, moves[m..], x, y,
                              Frame(alpha', beta', bestVal', x', y', false), trace', stopLog) == target
    {
      var (i, j) := moves[m];
      assert moves[m..][0] == (i, j) && moves[m..][1..] == moves[m + 1..];
      assert IsLegal(b, i, j, playerType);
      alpha', beta', bestVal', x', y', cut, nCanMove, trace' :=
        AlphaBetaTry(board, outBoard, b, cutOffDepth, maxDepth, playerType, evalFunc, moves[m..], i, j, x, y,
                     alpha', beta', bestVal', x', y', nCanMove, trace', stopLog);
      if cut {
        break;
      }
    }
  }

  /** One turn of alphaBeta's loop over its moves: re-validates the move (i, j) into
   *  `outBoard`, searches the child with the current window, narrows the window (MAX raises
   *  alpha, MIN lowers beta), takes the move when it narrowed the window, logs the node and
   *  reports a cutoff once alpha >= beta. */
  method AlphaBetaTry(board: array<int>, outBoard: array<int>, ghost b: seq<int>, cutOffDepth: int, maxDepth: int,
                      playerType: int, evalFunc: Evaluator, ghost ms: seq<Move>, i: int, j: int, ox: int, oy: int,
                      alpha: int, beta: int, bestVal: int, bestX: int, bestY: int, nCanMove: bool,
                      trace: seq<Record>, stopLog: bool)
    returns (alpha': int, beta': int, bestVal': int, bestX': int, bestY': int, cut: bool, nCanMove': bool,
             trace': seq<Record>)
    requires board.Length == CELLS && outBoard.Length == CELLS && board != outBoard
    requires IsPlayer(playerType) && cutOffDepth <= maxDepth && board[..] == b && alpha < beta
    requires AllOnBoard(ms) && ms != [] && ms[0] == (i, j) && IsLegal(b, i, j, playerType)
    modifies outBoard
    ensures cut <==> alpha' >= beta'
    ensures var g := Frame(alpha', beta', bestVal', bestX', bestY', cut);
      var t := AlphaBetaLoop(evalFunc, b, cutOffDepth, maxDepth, playerType, ms, ox, oy,
                             Frame(alpha, beta, bestVal, bestX, bestY, false), trace, stopLog);
      t == if cut then (g, trace') else AlphaBetaLoop(evalFunc, b, cutOffDepth, maxDepth, playerType, ms[1..], ox, oy, g, trace', stopLog)
    decreases maxDepth - cutOffDepth + 1, 0
  {
    alpha', beta', bestVal', bestX', bestY', cut, nCanMove', trace' := alpha, beta, bestVal, bestX, bestY, false, nCanMove, trace;
    var valid := ValidMove(board, outBoard, i, j, playerType);
    if valid {
      var childValue, childX, childY, childCanMove, childTrace :=
        AlphaBeta(outBoard, cutOffDepth + 1, maxDepth, -playerType, evalFunc, alpha, beta, i, j, nCanMove, stopLog);
      ghost var child := GameTree.AlphaBeta(evalFunc, outBoard[..], cutOffDepth + 1, maxDepth, -playerType,
                                            alpha, beta, i, j, stopLog);
      ghost var f := Frame(alpha, beta, bestVal, bestX, bestY, false);
      AlphaBetaLoopStep(evalFunc, b, cutOffDepth, maxDepth, playerType, ms, ox, oy, f, trace, stopLog,
                        i, j, outBoard[..], child);
      nCanMove' := childCanMove;
      if playerType == MAX_PLAYER {
        if childValue > alpha' {
          alpha' := childValue;
          bestX', bestY' := i, j;
          if alpha' >= beta' {
            cut := true;
          }
        }
        if childValue > bestVal' {
          bestVal' := childValue;
        }
      } else if playerType == MIN_PLAYER {
        if childValue < beta' {
          beta' := childValue;
          bestVal' := childValue;
          bestX', bestY' := i, j;
          if alpha' >= beta' {
            cut := true;
          }
        }
        if childValue < bestVal' {
          bestVal' := childValue;
        }
      }
      assert Update(playerType, childValue, i, j, f) == Frame(alpha', beta', bestVal', bestX', bestY', cut);
      trace' := Log(stopLog, trace + childTrace, AlphaBetaLine(cutOffDepth, bestVal', alpha', beta', ox, oy, cut));
    } else {
      assert false;
    }
  }

  /** The root alphaBeta: the window (-INF, INF). */
  method AlphaBetaRoot(board: array<int>, cutOffDepth: int, maxDepth: int, playerType: int, evalFunc: Evaluator,
                       x: int, y: int, canMove: bool, stopLog: bool)
    returns (value: int, x': int, y': int, canMove': bool, trace: seq<Record>)
    requires board.Length == CELLS && IsPlayer(playerType)
    ensures var o := GameTree.AlphaBetaRoot(evalFunc, board[..], cutOffDepth, maxDepth, playerType, x, y, stopLog);
      value == o.value && x' == o.x && y' == o.y && trace == o.trace && canMove' == (canMove || o.moved)
  {
    var alpha := -INF;
    var beta := INF;
    value, x', y', canMove', trace := AlphaBeta(board, cutOffDepth, maxDepth, playerType, evalFunc, alpha, beta, x, y, canMove, stopLog);
  }

  /** Runs the search `algo` from the root. */
  method RunSearch(algo: Algorithm, board: array<int>, cutOffDepth: int, maxDepth: int, playerType: int,
                   evalFunc: Evaluator, x: int, y: int, canMove: bool, stopLog: bool)
    returns (value: int, x': int, y': int, canMove': bool, trace: seq<Record>)
    requires board.Length == CELLS && IsPlayer(playerType)
    ensures var o := Searched(algo, evalFunc, board[..], cutOffDepth, maxDepth, playerType, x, y, stopLog);
      value == o.value && x' == o.x && y' == o.y && trace == o.trace && canMove' == (canMove || o.moved)
  {
    match algo
    case MiniMaxSearch =>
      value, x', y', canMove', trace := MiniMax(board, cutOffDepth, maxDepth, playerType, evalFunc, x, y, canMove, stopLog);
    case AlphaBetaSearch =>
      value, x', y', canMove', trace := AlphaBetaRoot(board, cutOffDepth, maxDepth, playerType, evalFunc, x, y, canMove, stopLog);
  }
}
