/** The move rule: legality of a placement and the board it produces (reversi.cpp `validMove`). */
module MoveRules {
  import opened Constants

  /** Entry `i` of the direction table, with the facts the scan relies on. */
  function Dir(i: int): (d: (int, int))
    requires 0 <= i < DIRECTION
    ensures d == DIRECTIONS[i] && IsUnitStep(d.0, d.1)
  {
    DIRECTIONS[i]
  }

  /** The value at step `t` along (dx, dy) from (x, y), or 2 (no cell value) off the board. */
  function At(b: seq<int>, x: int, y: int, dx: int, dy: int, t: int): int
    requires |b| == CELLS
  {
    if InBounds(Along(x, t, dx), Along(y, t, dy)) then b[Idx(Along(x, t, dx), Along(y, t, dy))] else 2
  }

  /** Cell `c` lies at one of the steps lo .. hi-1 along (dx, dy) from (x, y); step 0 is (x, y). */
  ghost predicate OnSegment(x: int, y: int, dx: int, dy: int, lo: int, hi: int, c: int) {
    exists t :: lo <= t < hi && c == Idx(Along(x, t, dx), Along(y, t, dy))
  }

  /**
   * The scan of one direction, at step `k` (>= 1) with `met` telling whether an opponent
   * cell was passed: the step of the `p` cell that closes the run, or 0 when the direction
   * is abandoned at an own piece met first, an empty cell or the board edge.  A cell that is
   * none of `p`, `-p` and EMPTY_CELL is stepped over, as the source's loop does.
   */
  function RunEnd(b: seq<int>, x: int, y: int, dx: int, dy: int, p: int, k: int, met: bool): int
    requires |b| == CELLS && InBounds(x, y) && IsUnitStep(dx, dy) && k >= 1
    decreases 8 - k
  {
    var cx, cy := Along(x, k, dx), Along(y, k, dy);
    if !InBounds(cx, cy) then 0
    else if b[Idx(cx, cy)] == p then (if met then k else 0)
    else if b[Idx(cx, cy)] == -p then RunEnd(b, x, y, dx, dy, p, k + 1, true)
    else if b[Idx(cx, cy)] == EMPTY_CELL then 0
    else RunEnd(b, x, y, dx, dy, p, k + 1, met)
  }

  /** A reported step is at or past `k` and on the board. */
  lemma {:induction false} RunEndBounds(b: seq<int>, x: int, y: int, dx: int, dy: int, p: int, k: int, met: bool)
    requires |b| == CELLS && InBounds(x, y) && IsUnitStep(dx, dy) && k >= 1
    ensures var r := RunEnd(b, x, y, dx, dy, p, k, met);
      r == 0 || (k <= r <= 7 && (met || k < r) && InBounds(Along(x, r, dx), Along(y, r, dy)))
    decreases 8 - k
  {
    if InBounds(Along(x, k, dx), Along(y, k, dy)) {
      RunEndBounds(b, x, y, dx, dy, p, k + 1, true);
      RunEndBounds(b, x, y, dx, dy, p, k + 1, met);
    }
  }

  /** The scan of direction (dx, dy) from (x, y): 0, or the step (2 .. 7) of the closing cell. */
  function Scan(b: seq<int>, x: int, y: int, dx: int, dy: int, p: int): (r: int)
    requires |b| == CELLS && InBounds(x, y) && IsUnitStep(dx, dy)
    ensures r == 0 || (2 <= r <= 7 && InBounds(Along(x, r, dx), Along(y, r, dy)))
  {
    RunEndBounds(b, x, y, dx, dy, p, 1, false);
    RunEnd(b, x, y, dx, dy, p, 1, false)
  }

  /** The scan of direction `i` of the table from (x, y). */
  function Run(b: seq<int>, x: int, y: int, p: int, i: int): (r: int)
    requires |b| == CELLS && InBounds(x, y) && 0 <= i < DIRECTION
    ensures r == 0 || (2 <= r <= 7 && InBounds(Along(x, r, Dir(i).0), Along(y, r, Dir(i).1)))
  {
    Scan(b, x, y, Dir(i).0, Dir(i).1, p)
  }

  /** `s` with the cells at steps c .. k-1 along (dx, dy) from (x, y) set to `p`. */
  function Paint(s: seq<int>, x: int, y: int, dx: int, dy: int, p: int, c: int, k: int): (r: seq<int>)
    requires |s| == CELLS && InBounds(x, y) && IsUnitStep(dx, dy) && 0 <= c
    requires k <= 0 || InBounds(Along(x, k, dx), Along(y, k, dy))
    ensures |r| == CELLS
    decreases k - c
  {
    if c >= k then s
    else Paint(s[Idx(Along(x, c, dx), Along(y, c, dy)) := p], x, y, dx, dy, p, c + 1, k)
  }

  /** The board after the first `n` directions have been scanned and their runs flipped. */
  function FlipDirs(b: seq<int>, x: int, y: int, p: int, n: int): (r: seq<int>)
    requires |b| == CELLS && InBounds(x, y) && 0 <= n <= DIRECTION
    ensures |r| == CELLS
  {
    if n == 0 then b
    else Paint(FlipDirs(b, x, y, p, n - 1), x, y, Dir(n - 1).0, Dir(n - 1).1, p, 0, Run(b, x, y, p, n - 1))
  }

  /** Some of the first `n` directions closes a run of opponent cells. */
  predicate Qualifies(b: seq<int>, x: int, y: int, p: int, n: int)
    requires |b| == CELLS && InBounds(x, y) && 0 <= n <= DIRECTION
  {
    n > 0 && (Qualifies(b, x, y, p, n - 1) || Run(b, x, y, p, n - 1) > 0)
  }

  /** `p` may play at (x, y): the cell is empty and some direction qualifies. */
  predicate IsLegal(b: seq<int>, x: int, y: int, p: int)
    requires |b| == CELLS && InBounds(x, y)
  {
    b[Idx(x, y)] == EMPTY_CELL && Qualifies(b, x, y, p, DIRECTION)
  }

  /** The board `validMove` writes to `outBoard` when the target cell is empty. */
  function Flip(b: seq<int>, x: int, y: int, p: int): (r: seq<int>)
    requires |b| == CELLS && InBounds(x, y)
    ensures |r| == CELLS
  {
    FlipDirs(b, x, y, p, DIRECTION)
  }

  // ---------------------------------------------------------------------------------------
  // Geometry of rays

  lemma IdxInjective(a: int, b: int, c: int, d: int)
    requires InBounds(a, b) && InBounds(c, d)
    ensures Idx(a, b) == Idx(c, d) <==> a == c && b == d
  {
  }

  /** Steps 0 .. k along a unit step stay on the board when both ends do. */
  lemma StepsBetween(x: int, y: int, dx: int, dy: int, t: int, k: int)
    requires InBounds(x, y) && IsUnitStep(dx, dy) && 0 <= t <= k
    requires InBounds(Along(x, k, dx), Along(y, k, dy))
    ensures InBounds(Along(x, t, dx), Along(y, t, dy))
  {
  }

  /** Rays of two different directions from one origin share no cell beyond the origin. */
  lemma RaysDisjoint(x: int, y: int, i: int, j: int, s: int, t: int)
    requires 0 <= i < DIRECTION && 0 <= j < DIRECTION && i != j && 1 <= s && 0 <= t
    ensures (Along(x, s, Dir(i).0), Along(y, s, Dir(i).1))
         != (Along(x, t, Dir(j).0), Along(y, t, Dir(j).1))
  {
    DirectionTable();
    var (a, b) := Dir(i);
    var (c, d) := Dir(j);
    assert (a, b) != (c, d);
  }

  /** A cell past the origin on ray `i` is not on the stretch 0 .. r-1 of another ray `j`. */
  lemma RayMissesOther(x: int, y: int, i: int, j: int, k: int, r: int)
    requires InBounds(x, y) && 0 <= i < DIRECTION && 0 <= j < DIRECTION && i != j && 1 <= k
    requires InBounds(Along(x, k, Dir(i).0), Along(y, k, Dir(i).1))
    requires r <= 0 || InBounds(Along(x, r, Dir(j).0), Along(y, r, Dir(j).1))
    ensures !OnSegment(x, y, Dir(j).0, Dir(j).1, 0, r, Idx(Along(x, k, Dir(i).0), Along(y, k, Dir(i).1)))
  {
    forall t | 0 <= t < r
      ensures Idx(Along(x, k, Dir(i).0), Along(y, k, Dir(i).1)) != Idx(Along(x, t, Dir(j).0), Along(y, t, Dir(j).1))
    {
      StepsBetween(x, y, Dir(j).0, Dir(j).1, t, r);
      RaysDisjoint(x, y, i, j, k, t);
      IdxInjective(Along(x, k, Dir(i).0), Along(y, k, Dir(i).1), Along(x, t, Dir(j).0), Along(y, t, Dir(j).1));
    }
  }

  /** Step 0 is the origin and no later step of a ray returns to it. */
  lemma OriginOnSegment(x: int, y: int, dx: int, dy: int, r: int, c: int)
    requires InBounds(x, y) && IsUnitStep(dx, dy) && 0 < r
    requires InBounds(Along(x, r, dx), Along(y, r, dy)) && 0 <= c < CELLS
    ensures OnSegment(x, y, dx, dy, 0, r, c) <==> c == Idx(x, y) || OnSegment(x, y, dx, dy, 1, r, c)
  {
    assert Idx(x, y) == Idx(Along(x, 0, dx), Along(y, 0, dy));
    if OnSegment(x, y, dx, dy, 0, r, c) && c != Idx(x, y) {
      var t :| 0 <= t < r && c == Idx(Along(x, t, dx), Along(y, t, dy));
      assert t != 0;
      assert OnSegment(x, y, dx, dy, 1, r, c);
    }
  }

  // ---------------------------------------------------------------------------------------
  // What the scan finds

  /** Step `k` of direction (dx, dy) holds `p` and steps 1 .. k-1 all hold the opponent `-p`. */
  ghost predicate Brackets(b: seq<int>, x: int, y: int, dx: int, dy: int, p: int, k: int)
    requires |b| == CELLS
  {
    2 <= k && InBounds(Along(x, k, dx), Along(y, k, dy)) && At(b, x, y, dx, dy, k) == p &&
    forall t :: 1 <= t < k ==> At(b, x, y, dx, dy, t) == -p
  }

  /** A closed run: step r holds `p`, steps k .. r-1 hold neither `p` nor EMPTY_CELL. */
  lemma {:induction false} RunEndCells(b: seq<int>, x: int, y: int, dx: int, dy: int, p: int, k: int, met: bool)
    requires |b| == CELLS && InBounds(x, y) && IsUnitStep(dx, dy) && k >= 1
    requires RunEnd(b, x, y, dx, dy, p, k, met) > 0
    ensures var r := RunEnd(b, x, y, dx, dy, p, k, met);
      (met || r > k) && At(b, x, y, dx, dy, r) == p &&
      forall t :: k <= t < r ==> At(b, x, y, dx, dy, t) != p && At(b, x, y, dx, dy, t) != EMPTY_CELL
    decreases 8 - k
  {
    var v := At(b, x, y, dx, dy, k);
    if v != p {
      var met' := v == -p || met;
      assert v != EMPTY_CELL && RunEnd(b, x, y, dx, dy, p, k, met) == RunEnd(b, x, y, dx, dy, p, k + 1, met');
      RunEndBounds(b, x, y, dx, dy, p, k + 1, met');
      RunEndCells(b, x, y, dx, dy, p, k + 1, met');
      var r := RunEnd(b, x, y, dx, dy, p, k + 1, met');
      forall t | k <= t < r
        ensures At(b, x, y, dx, dy, t) != p && At(b, x, y, dx, dy, t) != EMPTY_CELL
      {
        if t == k {
          assert At(b, x, y, dx, dy, t) == v;
        }
      }
    }
  }

  /** A bracketing `p` cell at step r is what the scan from step k (1 <= k <= r) reports. */
  lemma {:induction false} BracketsFound(b: seq<int>, x: int, y: int, dx: int, dy: int, p: int, r: int, k: int)
    requires |b| == CELLS && InBounds(x, y) && IsUnitStep(dx, dy) && IsPlayer(p)
    requires Brackets(b, x, y, dx, dy, p, r) && 1 <= k <= r
    ensures RunEnd(b, x, y, dx, dy, p, k, k >= 2) == r
    decreases r - k
  {
    StepsBetween(x, y, dx, dy, k, r);
    if k < r {
      assert At(b, x, y, dx, dy, k) == -p;
      BracketsFound(b, x, y, dx, dy, p, r, k + 1);
    }
  }

  /** On a well-formed board the scan reports step r exactly when step r brackets a run. */
  lemma RunEndIff(b: seq<int>, x: int, y: int, dx: int, dy: int, p: int, r: int)
    requires WellFormed(b) && IsPlayer(p) && InBounds(x, y) && IsUnitStep(dx, dy)
    ensures (r > 0 && Scan(b, x, y, dx, dy, p) == r) <==> Brackets(b, x, y, dx, dy, p, r)
  {
    var e := Scan(b, x, y, dx, dy, p);
    if e > 0 {
      RunEndCells(b, x, y, dx, dy, p, 1, false);
      forall t | 1 <= t < e
        ensures At(b, x, y, dx, dy, t) == -p
      {
        StepsBetween(x, y, dx, dy, t, e);
        assert 0 <= Idx(Along(x, t, dx), Along(y, t, dy)) < |b|;
      }
      assert Brackets(b, x, y, dx, dy, p, e);
    }
    if Brackets(b, x, y, dx, dy, p, r) {
      BracketsFound(b, x, y, dx, dy, p, r, 1);
    }
  }

  // ---------------------------------------------------------------------------------------
  // Cell-by-cell meaning of Paint and FlipDirs

  lemma {:induction false} PaintAt(s: seq<int>, x: int, y: int, dx: int, dy: int, p: int, c: int, k: int, cell: int)
    requires |s| == CELLS && InBounds(x, y) && IsUnitStep(dx, dy) && 0 <= c
    requires k <= 0 || InBounds(Along(x, k, dx), Along(y, k, dy))
    requires 0 <= cell < CELLS
    ensures Paint(s, x, y, dx, dy, p, c, k)[cell] == if OnSegment(x, y, dx, dy, c, k, cell) then p else s[cell]
    decreases k - c
  {
    if c < k {
      var here := Idx(Along(x, c, dx), Along(y, c, dy));
      PaintAt(s[here := p], x, y, dx, dy, p, c + 1, k, cell);
      if cell == here {
        assert OnSegment(x, y, dx, dy, c, k, cell);
      } else if OnSegment(x, y, dx, dy, c, k, cell) {
        var t :| c <= t < k && cell == Idx(Along(x, t, dx), Along(y, t, dy));
        assert t != c;
        assert OnSegment(x, y, dx, dy, c + 1, k, cell);
      }
    }
  }

  /** `cell` lies on the segment that direction `i` paints: steps 0 .. Run - 1 from (x, y). */
  ghost predicate Covers(b: seq<int>, x: int, y: int, p: int, i: int, cell: int)
    requires |b| == CELLS && InBounds(x, y) && 0 <= i < DIRECTION
  {
    OnSegment(x, y, Dir(i).0, Dir(i).1, 0, Run(b, x, y, p, i), cell)
  }

  /** Cell `cell` lies on the flipped stretch of one of the first `n` directions. */
  ghost predicate Painted(b: seq<int>, x: int, y: int, p: int, n: int, cell: int)
    requires |b| == CELLS && InBounds(x, y) && 0 <= n <= DIRECTION
  {
    n > 0 && (Painted(b, x, y, p, n - 1, cell) ||
              Covers(b, x, y, p, n - 1, cell))
  }

  lemma {:induction false} FlipDirsAt(b: seq<int>, x: int, y: int, p: int, n: int, cell: int)
    requires |b| == CELLS && InBounds(x, y) && 0 <= n <= DIRECTION && 0 <= cell < CELLS
    ensures FlipDirs(b, x, y, p, n)[cell] == if Painted(b, x, y, p, n, cell) then p else b[cell]
  {
    if n > 0 {
      var prev := FlipDirs(b, x, y, p, n - 1);
      var d := Dir(n - 1);
      var r := Run(b, x, y, p, n - 1);
      FlipDirsAt(b, x, y, p, n - 1, cell);
      PaintAt(prev, x, y, d.0, d.1, p, 0, r, cell);
      assert FlipDirs(b, x, y, p, n) == Paint(prev, x, y, d.0, d.1, p, 0, r);
      assert Covers(b, x, y, p, n - 1, cell) == OnSegment(x, y, d.0, d.1, 0, r, cell);
    }
  }



  /** A painted cell lies on the segment of some direction. */
  lemma {:induction false} PaintedWitness(b: seq<int>, x: int, y: int, p: int, n: int, cell: int)
    requires |b| == CELLS && InBounds(x, y) && 0 <= n <= DIRECTION
    requires Painted(b, x, y, p, n, cell)
    ensures exists i :: 0 <= i < n && Covers(b, x, y, p, i, cell)
  {
    if Covers(b, x, y, p, n - 1, cell) {
      assert 0 <= n - 1 < n;
    } else {
      PaintedWitness(b, x, y, p, n - 1, cell);
    }
  }

  /** A cell on the segment of direction `i` is painted once `i` has been processed. */
  lemma {:induction false} CoversPainted(b: seq<int>, x: int, y: int, p: int, n: int, i: int, cell: int)
    requires |b| == CELLS && InBounds(x, y) && 0 <= i < n <= DIRECTION
    requires Covers(b, x, y, p, i, cell)
    ensures Painted(b, x, y, p, n, cell)
  {
    if i < n - 1 {
      CoversPainted(b, x, y, p, n - 1, i, cell);
    }
  }




  /** The first `n` directions leave every cell past the origin on ray `i` alone (n <= i). */
  lemma {:induction false} RayUnpainted(b: seq<int>, x: int, y: int, p: int, n: int, i: int, k: int)
    requires |b| == CELLS && InBounds(x, y) && 0 <= n <= i < DIRECTION && 1 <= k
    requires InBounds(Along(x, k, Dir(i).0), Along(y, k, Dir(i).1))
    ensures !Painted(b, x, y, p, n, Idx(Along(x, k, Dir(i).0), Along(y, k, Dir(i).1)))
  {
    if n > 0 {
      RayUnpainted(b, x, y, p, n - 1, i, k);
      RayMissesOther(x, y, i, n - 1, k, Run(b, x, y, p, n - 1));
    }
  }

  /** Past the origin, `s` agrees with `b` along (dx, dy) from (x, y). */
  ghost predicate SameRay(s: seq<int>, b: seq<int>, x: int, y: int, dx: int, dy: int)
    requires |s| == CELLS && |b| == CELLS
  {
    forall k :: 1 <= k ==> At(s, x, y, dx, dy, k) == At(b, x, y, dx, dy, k)
  }

  /** The first `n` directions leave the ray of direction `n` as it was. */
  lemma OffRay(b: seq<int>, x: int, y: int, p: int, n: int)
    requires |b| == CELLS && InBounds(x, y) && 0 <= n < DIRECTION
    ensures SameRay(FlipDirs(b, x, y, p, n), b, x, y, Dir(n).0, Dir(n).1)
  {
    var s := FlipDirs(b, x, y, p, n);
    forall k | 1 <= k
      ensures At(s, x, y, Dir(n).0, Dir(n).1, k) == At(b, x, y, Dir(n).0, Dir(n).1, k)
    {
      if InBounds(Along(x, k, Dir(n).0), Along(y, k, Dir(n).1)) {
        var c := Idx(Along(x, k, Dir(n).0), Along(y, k, Dir(n).1));
        RayUnpainted(b, x, y, p, n, n, k);
        FlipDirsAt(b, x, y, p, n, c);
      }
    }
  }

  /** One more direction: its run is painted over the board so far. */
  lemma FlipDirsNext(b: seq<int>, x: int, y: int, p: int, i: int)
    requires |b| == CELLS && InBounds(x, y) && 0 <= i < DIRECTION
    ensures FlipDirs(b, x, y, p, i + 1) == Paint(FlipDirs(b, x, y, p, i), x, y, Dir(i).0, Dir(i).1, p, 0, Run(b, x, y, p, i))
    ensures Qualifies(b, x, y, p, i + 1) == (Qualifies(b, x, y, p, i) || Run(b, x, y, p, i) > 0)
  {
  }

  /** Painting steps c .. k-1 is painting step c, then steps c+1 .. k-1. */
  lemma PaintStep(s: seq<int>, x: int, y: int, dx: int, dy: int, p: int, c: int, k: int)
    requires |s| == CELLS && InBounds(x, y) && IsUnitStep(dx, dy) && 0 <= c < k
    requires InBounds(Along(x, k, dx), Along(y, k, dy))
    ensures Paint(s, x, y, dx, dy, p, c, k) == Paint(s[Idx(Along(x, c, dx), Along(y, c, dy)) := p], x, y, dx, dy, p, c + 1, k)
  {
  }

  // ---------------------------------------------------------------------------------------
  // The properties the move rule promises

  /** Some of the first `n` directions qualifies exactly when its scan is non-zero. */
  lemma {:induction false} QualifiesAny(b: seq<int>, x: int, y: int, p: int, n: int)
    requires |b| == CELLS && InBounds(x, y) && 0 <= n <= DIRECTION
    ensures Qualifies(b, x, y, p, n) <==> exists i :: 0 <= i < n && Run(b, x, y, p, i) > 0
  {
    if n > 0 {
      QualifiesAny(b, x, y, p, n - 1);
      if Run(b, x, y, p, n - 1) > 0 {
        assert exists i :: 0 <= i < n && Run(b, x, y, p, i) > 0;
      }
    }
  }

  /**
   * `p` may play at (x, y) exactly when the cell is empty and, along some direction, a run
   * of one or more opponent cells is closed, on the board, by a `p` cell.
   */
  lemma LegalIff(b: seq<int>, x: int, y: int, p: int)
    requires WellFormed(b) && IsPlayer(p) && InBounds(x, y)
    ensures IsLegal(b, x, y, p) <==>
        b[Idx(x, y)] == EMPTY_CELL &&
        exists i, k :: 0 <= i < DIRECTION && Brackets(b, x, y, Dir(i).0, Dir(i).1, p, k)
  {
    QualifiesAny(b, x, y, p, DIRECTION);
    if Qualifies(b, x, y, p, DIRECTION) {
      var i :| 0 <= i < DIRECTION && Run(b, x, y, p, i) > 0;
      var r := Run(b, x, y, p, i);
      RunEndIff(b, x, y, Dir(i).0, Dir(i).1, p, r);
      assert Brackets(b, x, y, Dir(i).0, Dir(i).1, p, r);
    }
    if exists i, k :: 0 <= i < DIRECTION && Brackets(b, x, y, Dir(i).0, Dir(i).1, p, k) {
      var i, k :| 0 <= i < DIRECTION && Brackets(b, x, y, Dir(i).0, Dir(i).1, p, k);
      RunEndIff(b, x, y, Dir(i).0, Dir(i).1, p, k);
      assert Run(b, x, y, p, i) > 0;
    }
  }

  /** Cell `cell` is an opponent cell of a run that a move of `p` at (x, y) brackets. */
  ghost predicate InRun(b: seq<int>, x: int, y: int, p: int, cell: int)
    requires |b| == CELLS && InBounds(x, y)
  {
    exists i, k :: 0 <= i < DIRECTION && Brackets(b, x, y, Dir(i).0, Dir(i).1, p, k) &&
      OnSegment(x, y, Dir(i).0, Dir(i).1, 1, k, cell)
  }

  /** A cell of a bracketed run holds the opponent. */
  lemma InRunOpponent(b: seq<int>, x: int, y: int, p: int, cell: int)
    requires |b| == CELLS && InBounds(x, y) && 0 <= cell < CELLS && InRun(b, x, y, p, cell)
    ensures b[cell] == -p
  {
    var i, k :| 0 <= i < DIRECTION && Brackets(b, x, y, Dir(i).0, Dir(i).1, p, k) &&
      OnSegment(x, y, Dir(i).0, Dir(i).1, 1, k, cell);
    var t :| 1 <= t < k && cell == Idx(Along(x, t, Dir(i).0), Along(y, t, Dir(i).1));
    StepsBetween(x, y, Dir(i).0, Dir(i).1, t, k);
    assert At(b, x, y, Dir(i).0, Dir(i).1, t) == -p;
  }

  /** On a well-formed board, a cell past the origin is painted exactly when it is in a run. */
  lemma PaintedIsRun(b: seq<int>, x: int, y: int, p: int, cell: int)
    requires WellFormed(b) && IsPlayer(p) && InBounds(x, y) && 0 <= cell < CELLS && cell != Idx(x, y)
    ensures Painted(b, x, y, p, DIRECTION, cell) <==> InRun(b, x, y, p, cell)
  {
    if Painted(b, x, y, p, DIRECTION, cell) {
      PaintedWitness(b, x, y, p, DIRECTION, cell);
      var i :| 0 <= i < DIRECTION && Covers(b, x, y, p, i, cell);
      var r := Run(b, x, y, p, i);
      RunEndIff(b, x, y, Dir(i).0, Dir(i).1, p, r);
      OriginOnSegment(x, y, Dir(i).0, Dir(i).1, r, cell);
      assert InRun(b, x, y, p, cell);
    }
    if InRun(b, x, y, p, cell) {
      var i, k :| 0 <= i < DIRECTION && Brackets(b, x, y, Dir(i).0, Dir(i).1, p, k) &&
        OnSegment(x, y, Dir(i).0, Dir(i).1, 1, k, cell);
      RunEndIff(b, x, y, Dir(i).0, Dir(i).1, p, k);
      OriginOnSegment(x, y, Dir(i).0, Dir(i).1, k, cell);
      CoversPainted(b, x, y, p, DIRECTION, i, cell);
    }
  }

  /** After a legal move the origin is painted. */
  lemma OriginPainted(b: seq<int>, x: int, y: int, p: int)
    requires |b| == CELLS && InBounds(x, y) && IsLegal(b, x, y, p)
    ensures Painted(b, x, y, p, DIRECTION, Idx(x, y))
  {
    QualifiesAny(b, x, y, p, DIRECTION);
    var i :| 0 <= i < DIRECTION && Run(b, x, y, p, i) > 0;
    assert Idx(x, y) == Idx(Along(x, 0, Dir(i).0), Along(y, 0, Dir(i).1));
    assert Covers(b, x, y, p, i, Idx(x, y));
    CoversPainted(b, x, y, p, DIRECTION, i, Idx(x, y));
  }

  /**
   * After a legal move of `p` at (x, y), the origin and exactly the opponent cells of the
   * bracketed runs hold `p`; every other cell, bracketing own pieces included, is unchanged.
   */
  lemma FlipCells(b: seq<int>, x: int, y: int, p: int, cell: int)
    requires WellFormed(b) && IsPlayer(p) && InBounds(x, y) && IsLegal(b, x, y, p) && 0 <= cell < CELLS
    ensures Flip(b, x, y, p)[cell] == if cell == Idx(x, y) || InRun(b, x, y, p, cell) then p else b[cell]
    ensures InRun(b, x, y, p, cell) ==> b[cell] == -p
  {
    FlipDirsAt(b, x, y, p, DIRECTION, cell);
    if cell == Idx(x, y) {
      OriginPainted(b, x, y, p);
    } else {
      PaintedIsRun(b, x, y, p, cell);
    }
    if InRun(b, x, y, p, cell) {
      InRunOpponent(b, x, y, p, cell);
    }
  }

  /** When no direction qualifies, the copied board is returned unchanged. */
  lemma {:induction false} FlipWithoutRun(b: seq<int>, x: int, y: int, p: int, n: int)
    requires |b| == CELLS && InBounds(x, y) && 0 <= n <= DIRECTION && !Qualifies(b, x, y, p, n)
    ensures FlipDirs(b, x, y, p, n) == b
  {
    if n > 0 {
      FlipWithoutRun(b, x, y, p, n - 1);
    }
  }

  /** A painted cell other than the origin was occupied before the move. */
  lemma PaintedOccupied(b: seq<int>, x: int, y: int, p: int, cell: int)
    requires |b| == CELLS && InBounds(x, y) && 0 <= cell < CELLS && cell != Idx(x, y)
    requires Painted(b, x, y, p, DIRECTION, cell)
    ensures b[cell] != EMPTY_CELL
  {
    PaintedWitness(b, x, y, p, DIRECTION, cell);
    var i :| 0 <= i < DIRECTION && Covers(b, x, y, p, i, cell);
    var r := Run(b, x, y, p, i);
    var t :| 0 <= t < r && cell == Idx(Along(x, t, Dir(i).0), Along(y, t, Dir(i).1));
    assert t != 0;
    RunEndCells(b, x, y, Dir(i).0, Dir(i).1, p, 1, false);
    StepsBetween(x, y, Dir(i).0, Dir(i).1, t, r);
    assert At(b, x, y, Dir(i).0, Dir(i).1, t) != EMPTY_CELL;
  }

  /** A legal move fills the origin and empties no cell, on any board. */
  lemma FlipFillsOrigin(b: seq<int>, x: int, y: int, p: int, cell: int)
    requires |b| == CELLS && InBounds(x, y) && IsPlayer(p) && IsLegal(b, x, y, p) && 0 <= cell < CELLS
    ensures Flip(b, x, y, p)[Idx(x, y)] == p
    ensures Flip(b, x, y, p)[cell] == EMPTY_CELL <==> b[cell] == EMPTY_CELL && cell != Idx(x, y)
  {
    OriginPainted(b, x, y, p);
    FlipDirsAt(b, x, y, p, DIRECTION, Idx(x, y));
    FlipDirsAt(b, x, y, p, DIRECTION, cell);
    if cell != Idx(x, y) && Painted(b, x, y, p, DIRECTION, cell) {
      PaintedOccupied(b, x, y, p, cell);
    }
  }

  /** A move keeps a well-formed board well-formed. */
  lemma FlipWellFormed(b: seq<int>, x: int, y: int, p: int)
    requires WellFormed(b) && IsPlayer(p) && InBounds(x, y)
    ensures WellFormed(Flip(b, x, y, p))
  {
    forall cell | 0 <= cell < CELLS
      ensures -1 <= Flip(b, x, y, p)[cell] <= 1
    {
      FlipDirsAt(b, x, y, p, DIRECTION, cell);
    }
  }

  // ---------------------------------------------------------------------------------------
  // validMove

  /** Steps left before a walk from `c` with step `d` leaves the board (0 for a zero step). */
  function Reach(c: int, d: int): int {
    if d > 0 then 8 - c else if d < 0 then c + 1 else 0
  }

  /**
   * The scan loop of `validMove` as the source writes it, over positions: from the cell
   * (cx, cy), stepping (dx, dy), the distance max(|cx - x|, |cy - y|) from (x, y) to the
   * `p` cell that closes a run of opponent cells, or 0.
   */
  function ScanFrom(s: seq<int>, x: int, y: int, cx: int, cy: int, dx: int, dy: int, p: int, met: bool): int
    requires |s| == CELLS && IsUnitStep(dx, dy)
    decreases Reach(cx, dx) + Reach(cy, dy)
  {
    if !InBounds(cx, cy) then 0
    else if s[Idx(cx, cy)] == p then (if met then Max(Abs(cx - x), Abs(cy - y)) else 0)
    else if s[Idx(cx, cy)] == -p then ScanFrom(s, x, y, cx + dx, cy + dy, dx, dy, p, true)
    else if s[Idx(cx, cy)] == EMPTY_CELL then 0
    else ScanFrom(s, x, y, cx + dx, cy + dy, dx, dy, p, met)
  }

  /** Step `k` from (x, y) lies `k` cells away in the max-norm. */
  lemma AlongDistance(x: int, y: int, dx: int, dy: int, k: int)
    requires IsUnitStep(dx, dy) && k >= 0
    ensures Max(Abs(Along(x, k, dx) - x), Abs(Along(y, k, dy) - y)) == k
  {
  }

  /** The scan loop, run on the board itself from step `k` at (cx, cy), computes `RunEnd`. */
  lemma {:induction false} ScanFromRunEnd(b: seq<int>, x: int, y: int, cx: int, cy: int, dx: int, dy: int, p: int, k: int, met: bool)
    requires |b| == CELLS && InBounds(x, y) && IsUnitStep(dx, dy) && k >= 1
    requires cx == Along(x, k, dx) && cy == Along(y, k, dy)
    ensures ScanFrom(b, x, y, cx, cy, dx, dy, p, met) == RunEnd(b, x, y, dx, dy, p, k, met)
    decreases 8 - k
  {
    if InBounds(cx, cy) {
      var v := b[Idx(cx, cy)];
      if v == p {
        ScanFromClose(b, x, y, cx, cy, dx, dy, p, k, met);
      } else if v != EMPTY_CELL {
        AlongNext(x, k, dx);
        AlongNext(y, k, dy);
        ScanFromRunEnd(b, x, y, cx + dx, cy + dy, dx, dy, p, k + 1, v == -p || met);
        ScanFromStep(b, x, y, cx, cy, dx, dy, p, k, met);
      }
    }
  }

  /** At the closing cell the loop's distance is the step number. */
  lemma ScanFromClose(b: seq<int>, x: int, y: int, cx: int, cy: int, dx: int, dy: int, p: int, k: int, met: bool)
    requires |b| == CELLS && InBounds(x, y) && IsUnitStep(dx, dy) && k >= 1
    requires cx == Along(x, k, dx) && cy == Along(y, k, dy)
    requires InBounds(cx, cy) && b[Idx(cx, cy)] == p
    ensures ScanFrom(b, x, y, cx, cy, dx, dy, p, met) == RunEnd(b, x, y, dx, dy, p, k, met)
  {
    AlongDistance(x, y, dx, dy, k);
  }

  /** Past an opponent (or any other non-empty) cell, loop and `RunEnd` go on alike. */
  lemma ScanFromStep(b: seq<int>, x: int, y: int, cx: int, cy: int, dx: int, dy: int, p: int, k: int, met: bool)
    requires |b| == CELLS && InBounds(x, y) && IsUnitStep(dx, dy) && k >= 1
    requires cx == Along(x, k, dx) && cy == Along(y, k, dy)
    requires InBounds(cx, cy) && b[Idx(cx, cy)] != p && b[Idx(cx, cy)] != EMPTY_CELL
    requires var met' := b[Idx(cx, cy)] == -p || met;
      ScanFrom(b, x, y, cx + dx, cy + dy, dx, dy, p, met') == RunEnd(b, x, y, dx, dy, p, k + 1, met')
    ensures ScanFrom(b, x, y, cx, cy, dx, dy, p, met) == RunEnd(b, x, y, dx, dy, p, k, met)
  {
  }

  /** The scan loop reads only the ray: boards that agree along it give the same result. */
  lemma {:induction false} ScanFromSameRay(s: seq<int>, b: seq<int>, x: int, y: int, cx: int, cy: int, dx: int, dy: int, p: int, k: int, met: bool)
    requires |s| == CELLS && |b| == CELLS && InBounds(x, y) && IsUnitStep(dx, dy) && k >= 1
    requires cx == Along(x, k, dx) && cy == Along(y, k, dy)
    requires SameRay(s, b, x, y, dx, dy)
    ensures ScanFrom(s, x, y, cx, cy, dx, dy, p, met) == ScanFrom(b, x, y, cx, cy, dx, dy, p, met)
    decreases 8 - k
  {
    if InBounds(cx, cy) {
      assert At(s, x, y, dx, dy, k) == At(b, x, y, dx, dy, k);
      var v := b[Idx(cx, cy)];
      if v != p && v != EMPTY_CELL {
        AlongNext(x, k, dx);
        AlongNext(y, k, dy);
        ScanFromSameRay(s, b, x, y, cx + dx, cy + dy, dx, dy, p, k + 1, v == -p || met);
      }
    }
  }

  /**
   * The scan of one direction from (x, y) over the array being written: the distance to
   * the `player` cell closing a run of opponent cells, or 0.
   */
  method ScanDirection(a: array<int>, x: int, y: int, dX: int, dY: int, player: int) returns (run: int)
    requires a.Length == CELLS && IsUnitStep(dX, dY)
    ensures run == ScanFrom(a[..], x, y, x + dX, y + dY, dX, dY, player, false)
  {
    ghost var s := a[..];
    ghost var target := ScanFrom(s, x, y, x + dX, y + dY, dX, dY, player, false);
    var metOpponent := false;
    var cx, cy := x + dX, y + dY;
    while 0 <= cx < BOARD_SIZE && 0 <= cy < BOARD_SIZE
      invariant ScanFrom(s, x, y, cx, cy, dX, dY, player, metOpponent) == target
      decreases Reach(cx, dX) + Reach(cy, dY)
    {
      var cell := a[Idx(cx, cy)];
      assert cell == s[Idx(cx, cy)];
      if cell == player {
        return if metOpponent then Max(Abs(cx - x), Abs(cy - y)) else 0;
      } else if cell == -player {
        metOpponent := true;
      } else if cell == EMPTY_CELL {
        return 0;
      }
      cx, cy := cx + dX, cy + dY;
    }
    return 0;
  }

  /** The flip loop: steps 0 .. run-1 along (dX, dY) from (x, y) become `player`. */
  method PaintRun(a: array<int>, x: int, y: int, dX: int, dY: int, player: int, run: int)
    requires a.Length == CELLS && InBounds(x, y) && IsUnitStep(dX, dY) && 0 <= run
    requires run == 0 || InBounds(Along(x, run, dX), Along(y, run, dY))
    modifies a
    ensures a[..] == Paint(old(a[..]), x, y, dX, dY, player, 0, run)
  {
    ghost var target := Paint(a[..], x, y, dX, dY, player, 0, run);
    for count := 0 to run
      invariant Paint(a[..], x, y, dX, dY, player, count, run) == target
    {
      AlongIsProduct(x, count, dX);
      AlongIsProduct(y, count, dY);
      StepsBetween(x, y, dX, dY, count, run);
      ghost var before := a[..];
      var cell := Idx(x + count * dX, y + count * dY);
      PaintStep(before, x, y, dX, dY, player, count, run);
      a[cell] := player;
      assert a[..] == before[cell := player];
    }
  }

  /** The loop's scan over a board that agrees with `b` along the ray is `Scan` of `b`. */
  lemma ScanIsScanFrom(s: seq<int>, b: seq<int>, x: int, y: int, dx: int, dy: int, p: int)
    requires |s| == CELLS && |b| == CELLS && InBounds(x, y) && IsUnitStep(dx, dy)
    requires SameRay(s, b, x, y, dx, dy)
    ensures ScanFrom(s, x, y, x + dx, y + dy, dx, dy, p, false) == Scan(b, x, y, dx, dy, p)
  {
    ScanFromSameRay(s, b, x, y, x + dx, y + dy, dx, dy, p, 1, false);
    ScanFromRunEnd(b, x, y, x + dx, y + dy, dx, dy, p, 1, false);
  }

  /**
   * One pass of the direction loop shared by `validMove` and `placePiece`: scan (dX, dY)
   * over the array and, when a run is closed, flip the origin and the run to `player`.
   * Along the ray the array still holds the board `b` the move started from.
   */
  method FlipDirection(a: array<int>, ghost b: seq<int>, x: int, y: int, dX: int, dY: int, player: int)
    returns (flipped: bool)
    requires a.Length == CELLS && |b| == CELLS && InBounds(x, y) && IsUnitStep(dX, dY)
    requires SameRay(a[..], b, x, y, dX, dY)
    modifies a
    ensures flipped == (Scan(b, x, y, dX, dY, player) > 0)
    ensures a[..] == Paint(old(a[..]), x, y, dX, dY, player, 0, Scan(b, x, y, dX, dY, player))
  {
    ScanIsScanFrom(a[..], b, x, y, dX, dY, player);
    var run := ScanDirection(a, x, y, dX, dY, player);
    flipped := run > 0;
    if flipped {
      PaintRun(a, x, y, dX, dY, player, run);
    }
  }

  /**
   * Checks a placement of `player` at (x, y) and, when the target is empty, writes the
   * resulting board to `outBoard` (a copy of `board` with the bracketed runs flipped).
   */
  method ValidMove(board: array<int>, outBoard: array<int>, x: int, y: int, player: int) returns (valid: bool)
    requires board.Length == CELLS && outBoard.Length == CELLS && board != outBoard
    requires InBounds(x, y)
    modifies outBoard
    ensures board[Idx(x, y)] != EMPTY_CELL ==> !valid && outBoard[..] == old(outBoard[..])
    ensures board[Idx(x, y)] == EMPTY_CELL ==>
      valid == IsLegal(board[..], x, y, player) && outBoard[..] == Flip(board[..], x, y, player)
  {
    if board[Idx(x, y)] != EMPTY_CELL {
      return false;
    }
    valid := false;
    forall c | 0 <= c < CELLS {
      outBoard[c] := board[c];
    }
    ghost var b := board[..];
    assert outBoard[..] == b;
    for i := 0 to DIRECTION
      invariant outBoard[..] == FlipDirs(b, x, y, player, i)
      invariant valid == Qualifies(b, x, y, player, i)
    {
      var dX, dY := DIRECTIONS[i].0, DIRECTIONS[i].1;
      assert (dX, dY) == Dir(i);
      OffRay(b, x, y, player, i);
      FlipDirsNext(b, x, y, player, i);
      var flipped := FlipDirection(outBoard, b, x, y, dX, dY, player);
      if flipped {
        valid := true;
      }
    }
  }
}
