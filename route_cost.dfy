/** Value-level definitions behind the terrain route search of
    `Assets/Script/Terrain/TerrainMapGenerator.cs`: the hand-written direction
    table, the Walk/Climb/Blocked classification with its priority surcharges,
    walks over the table, and the camp picker's candidate and score functions. */
module RouteCost {
  import opened Grid

  /** The `directions` table in its source order. */
  function Directions(): seq<Cell>
  {
    [Cell(0, 1), Cell(0, -1), Cell(1, 0), Cell(-1, 0),
     Cell(-1, -1), Cell(1, 1), Cell(-1, -1), Cell(1, -1)]
  }

  /** Entry 4 and entry 6 of the table are both `(-1,-1)`, so the diagonal
      `(-1,1)` is never taken; every entry is one king move long, and the four
      axis moves are all present. */
  lemma DirectionTableShape()
    ensures |Directions()| == 8
    ensures Directions()[4] == Directions()[6] == Cell(-1, -1)
    ensures Cell(-1, 1) !in Directions() && Cell(0, 0) !in Directions()
    ensures forall k :: 0 <= k < |Directions()| ==> Chebyshev(Directions()[k]) == 1
    ensures Cell(0, 1) in Directions() && Cell(0, -1) in Directions()
    ensures Cell(1, 0) in Directions() && Cell(-1, 0) in Directions()
  {
  }

  /** `q` is reached from `p` by one offset of the table. */
  predicate IsStep(p: Cell, q: Cell)
  {
    q.Minus(p) in Directions()
  }

  lemma StepIsKingMove(p: Cell, q: Cell)
    requires IsStep(p, q)
    ensures Chebyshev(q.Minus(p)) == 1 && p != q
  {
    DirectionTableShape();
    var d := Directions();
    var k :| 0 <= k < |d| && d[k] == q.Minus(p);
  }

  /** Every pair of neighbouring entries of `path` is a table step. */
  predicate IsWalk(path: seq<Cell>)
  {
    forall k :: 0 <= k < |path| - 1 ==> IsStep(path[k], path[k + 1])
  }

  /** The tuning values of `Assets/Script/PathfindingPreset.cs`. */
  datatype PathfindingPreset = PathfindingPreset(
    maxWalkableSteepness: int,
    maxClimbableSteepness: int,
    priorityBase: int,
    priorityWalk: int,
    priorityClimb: int)

  function DefaultPreset(): PathfindingPreset
  {
    PathfindingPreset(30, 50, 100, 100, 100)
  }

  /** The priority before scaling and the colour (0 Walk, 1 Climb, 2 Blocked)
      that one relaxation gives a neighbour. */
  datatype Relaxation = Relaxation(priority: int, color: int)

  /** The two threshold tests of the relaxation, applied in source order to the
      destination's steepness `s`. With ordered thresholds this is the three-way
      classification with cumulative surcharges; whatever the thresholds, a
      colour of 2 means exactly "steeper than climbable". */
  function Classify(distTop: int, s: real, p: PathfindingPreset): (r: Relaxation)
    ensures p.maxWalkableSteepness <= p.maxClimbableSteepness ==>
      (s <= p.maxWalkableSteepness as real ==>
         r == Relaxation(distTop + p.priorityBase, 0)) &&
      (p.maxWalkableSteepness as real < s <= p.maxClimbableSteepness as real ==>
         r == Relaxation(distTop + p.priorityBase + p.priorityWalk, 1)) &&
      (p.maxClimbableSteepness as real < s ==>
         r == Relaxation(distTop + p.priorityBase + p.priorityWalk + p.priorityClimb, 2))
    ensures r.color == 2 <==> s > p.maxClimbableSteepness as real
    ensures r.color in {0, 1, 2}
  {
    var base := Relaxation(distTop + p.priorityBase, 0);
    var afterWalk :=
      if s > p.maxWalkableSteepness as real then Relaxation(base.priority + p.priorityWalk, 1) else base;
    if s > p.maxClimbableSteepness as real then Relaxation(afterWalk.priority + p.priorityClimb, 2)
    else afterWalk
  }

  /** Line 349: the priority scaled by `steepness / 90` and cast back to `int`
      (on reals; float rounding is not modelled). Flat ground costs nothing,
      and on ground no steeper than 90 degrees the scaled priority of a
      non-negative priority never exceeds it. */
  function ScaledPriority(priority: int, s: real): (r: int)
    ensures s == 0.0 ==> r == 0
    ensures 0 <= priority && 0.0 <= s <= 90.0 ==> 0 <= r <= priority
  {
    var a := priority as real;
    var t := s / 90.0;
    var scaled := a * t;
    assert 0 <= priority && 0.0 <= s <= 90.0 ==> 0.0 <= scaled <= a by {
      if 0 <= priority && 0.0 <= s <= 90.0 {
        ScaleDown(a, t);
      }
    }
    Truncate(scaled)
  }

  lemma ScaleDown(a: real, t: real)
    requires 0.0 <= a && 0.0 <= t <= 1.0
    ensures 0.0 <= a * t <= a
  {
    assert a - a * t == a * (1.0 - t);
  }

  // ---------------------------------------------------------------------------
  // Camp selection (FindCampsLocation, CheckAreaCampCriteria)

  /** Walkable points of `path[i..]` in the order the camp loop meets them,
      from the last point of the path back to `path[i]`. */
  function WalkableFromEnd(path: seq<Cell>, i: nat, steep: Cell -> real, maxWalkable: int): (w: seq<Cell>)
    requires i <= |path|
    ensures |w| <= |path| - i
    decreases |path| - i
  {
    if i == |path| then []
    else
      var rest := WalkableFromEnd(path, i + 1, steep, maxWalkable);
      rest + (if steep(path[i]) <= maxWalkable as real then [path[i]] else [])
  }

  /** Every point `WalkableFromEnd` lists lies on `path[i..]` and is walkable. */
  lemma {:induction false} WalkableFromEndWithin(path: seq<Cell>, i: nat, steep: Cell -> real, maxWalkable: int)
    requires i <= |path|
    ensures forall c :: c in WalkableFromEnd(path, i, steep, maxWalkable) ==>
      c in path[i..] && steep(c) <= maxWalkable as real
    decreases |path| - i
  {
    if i < |path| {
      WalkableFromEndWithin(path, i + 1, steep, maxWalkable);
      assert path[i..] == [path[i]] + path[i + 1..];
    }
  }

  /** The spacing the `distance` counter enforces between candidates. */
  function Spacing(campMinimumDistance: int): nat
  {
    if campMinimumDistance < 1 then 1 else campMinimumDistance
  }

  /** Truncated steepness of the column `point.x + dx`, over `dy` in `[lo, hi)`. */
  function ColumnScore(steep: Cell -> real, point: Cell, dx: int, lo: int, hi: int): int
    decreases hi - lo
  {
    if hi <= lo then 0
    else ColumnScore(steep, point, dx, lo, hi - 1) + Truncate(steep(Cell(point.x + dx, point.y + hi - 1)))
  }

  /** Truncated steepness summed over the half-open window
      `[lo, hi) x [lo, yHi)` of offsets around `point`, columns `[lo, hi)` taken
      in increasing order as the loops of `CheckAreaCampCriteria` do. */
  function WindowScore(steep: Cell -> real, point: Cell, lo: int, hi: int, yHi: int): int
    decreases hi - lo
  {
    if hi <= lo then 0
    else WindowScore(steep, point, lo, hi - 1, yHi) + ColumnScore(steep, point, hi - 1, lo, yHi)
  }

  /** The camp score around `point` for a camp of size `campSize`:
      offsets `[-(campSize/2), campSize/2)` in both directions. */
  function AreaScore(steep: Cell -> real, point: Cell, campSize: int): int
  {
    var h := CsHalf(campSize);
    WindowScore(steep, point, -h, h, h)
  }

  /** A cell is inside the camp window of `point` when its offset lies in
      `[-h, h)` on both axes: the upper edge is excluded. */
  predicate InWindow(c: Cell, point: Cell, h: int)
  {
    -h <= c.x - point.x < h && -h <= c.y - point.y < h
  }

  lemma {:induction false} ColumnLocal(f: Cell -> real, g: Cell -> real, point: Cell, dx: int, lo: int, hi: int)
    requires forall c: Cell :: c.x == point.x + dx && lo <= c.y - point.y < hi ==> Truncate(f(c)) == Truncate(g(c))
    ensures ColumnScore(f, point, dx, lo, hi) == ColumnScore(g, point, dx, lo, hi)
    decreases hi - lo
  {
    if hi > lo {
      ColumnLocal(f, g, point, dx, lo, hi - 1);
      var c := Cell(point.x + dx, point.y + hi - 1);
      assert lo <= c.y - point.y < hi;
    }
  }

  lemma {:induction false} WindowLocal(f: Cell -> real, g: Cell -> real, point: Cell, lo: int, hi: int, yHi: int)
    requires forall c: Cell :: lo <= c.x - point.x < hi && lo <= c.y - point.y < yHi ==> Truncate(f(c)) == Truncate(g(c))
    ensures WindowScore(f, point, lo, hi, yHi) == WindowScore(g, point, lo, hi, yHi)
    decreases hi - lo
  {
    if hi > lo {
      WindowLocal(f, g, point, lo, hi - 1, yHi);
      ColumnLocal(f, g, point, hi - 1, lo, yHi);
    }
  }

  /** The score depends only on the cells of the half-open window: two
      steepness samplers that agree there (after truncation) give equal scores. */
  lemma AreaScoreIsLocal(f: Cell -> real, g: Cell -> real, point: Cell, campSize: int)
    requires forall c :: InWindow(c, point, CsHalf(campSize)) ==> Truncate(f(c)) == Truncate(g(c))
    ensures AreaScore(f, point, campSize) == AreaScore(g, point, campSize)
  {
    var h := CsHalf(campSize);
    WindowLocal(f, g, point, -h, h, h);
  }

  lemma {:induction false} ColumnBounds(f: Cell -> real, point: Cell, dx: int, lo: int, hi: int)
    requires lo <= hi
    requires forall c :: 0.0 <= f(c) <= 90.0
    ensures 0 <= ColumnScore(f, point, dx, lo, hi) <= 90 * (hi - lo)
    decreases hi - lo
  {
    if hi > lo {
      ColumnBounds(f, point, dx, lo, hi - 1);
    }
  }

  lemma {:induction false} WindowBounds(f: Cell -> real, point: Cell, lo: int, hi: int, yHi: int)
    requires lo <= hi && lo <= yHi
    requires forall c :: 0.0 <= f(c) <= 90.0
    ensures 0 <= WindowScore(f, point, lo, hi, yHi) <= 90 * (hi - lo) * (yHi - lo)
    decreases hi - lo
  {
    if hi > lo {
      WindowBounds(f, point, lo, hi - 1, yHi);
      ColumnBounds(f, point, hi - 1, lo, yHi);
      assert 90 * (hi - lo) * (yHi - lo) == 90 * (hi - 1 - lo) * (yHi - lo) + 90 * (yHi - lo);
    }
  }

  /** With steepness in `[0,90]` degrees the score of a camp of non-negative size
      lies between 0 and `90 * (2h)^2`, `h == campSize/2`; a negative size gives
      an empty window and a score of 0. */
  lemma AreaScoreBounds(f: Cell -> real, point: Cell, campSize: int)
    requires forall c :: 0.0 <= f(c) <= 90.0
    ensures campSize >= 0 ==>
      0 <= AreaScore(f, point, campSize) <= 90 * (2 * CsHalf(campSize)) * (2 * CsHalf(campSize))
    ensures campSize < 0 ==> AreaScore(f, point, campSize) == 0
  {
    var h := CsHalf(campSize);
    if campSize >= 0 {
      WindowBounds(f, point, -h, h, h);
    }
  }
}
