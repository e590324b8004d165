/** The climbing-route driver of `Assets/Script/TerrainMapGenerator.cs`: a
    walkable grid is drawn from the terrain's steepness, the highest sample of
    the height map becomes the target, and the A* search of `Pathfinding`
    runs from the centre of the map to it. Terrain sampling (steepness,
    heights, world positions) is supplied; noise, texturing and scene
    objects are not modelled. */
module HighestPointPath {
  import opened Grid
  import opened AStar

  /** C#'s `float.MinValue`, where the search for the highest sample starts. */
  const FloatMinValue: real := -340282346638528859811704183484516925440.0

  /** Unity's `Vector3`, a point in world space. */
  datatype Vector3 = Vector3(x: real, y: real, z: real)

  /** `a` comes before `b` in the scan order of the height map: row by row
      (`y` outer), and along a row by increasing `x`. */
  predicate ScansBefore(a: Cell, b: Cell)
  {
    a.y < b.y || (a.y == b.y && a.x < b.x)
  }

  /** What the scan for the highest sample settles on, over a height map
      read as `heights[y, x]`: `maxHeight` is the larger of `float.MinValue`
      and every sample; if some sample beats `float.MinValue`, `target` is
      the first sample of that height in scan order, otherwise the target
      keeps its initial value `(0, 0)`. */
  ghost predicate IsScanMax(heights: array2<real>, target: Cell, maxHeight: real)
    reads heights
  {
    var res := heights.Length0;
    && heights.Length1 == res
    && maxHeight >= FloatMinValue
    && (forall y, x :: 0 <= y < res && 0 <= x < res ==> heights[y, x] <= maxHeight)
    && (maxHeight == FloatMinValue ==> target == Cell(0, 0))
    && (maxHeight > FloatMinValue ==>
          && InGrid(target, res) && heights[target.y, target.x] == maxHeight
          && forall y, x :: 0 <= y < res && 0 <= x < res && ScansBefore(Cell(x, y), target) ==>
               heights[y, x] < maxHeight)
  }

  /** The scan's outcome is determined by the height map: two outcomes that
      both meet `IsScanMax` are the same cell and the same height. */
  lemma ScanMaxUnique(heights: array2<real>, t1: Cell, m1: real, t2: Cell, m2: real)
    requires IsScanMax(heights, t1, m1) && IsScanMax(heights, t2, m2)
    ensures t1 == t2 && m1 == m2
  {
    if m1 > FloatMinValue {
      assert heights[t1.y, t1.x] <= m2;
    }
    if m2 > FloatMinValue {
      assert heights[t2.y, t2.x] <= m1;
    }
  }

  /** A walk of king moves from `start` over grid cells no steeper than
      `maxSteepness`, the cell `start` itself excepted. */
  ghost predicate IsClimb(w: seq<Cell>, start: Cell, res: int, steepness: Cell -> real, maxSteepness: real)
  {
    && |w| >= 1 && w[0] == start
    && (forall k :: 0 <= k < |w| - 1 ==> Adjacent(w[k], w[k + 1]))
    && (forall k :: 1 <= k < |w| ==> InGrid(w[k], res) && steepness(w[k]) <= maxSteepness)
  }

  class TerrainMapGenerator {
    var octaves: int
    var pathMaxSteepness: real

    /** The inspector defaults: four octaves, paths up to 90 degrees of slope. */
    constructor()
      ensures octaves == 4 && pathMaxSteepness == 90.0
    {
      octaves := 4;
      pathMaxSteepness := 90.0;
    }

    /** `OnValidate`: a non-positive octave count becomes 1, any other is kept. */
    method OnValidate()
      modifies this`octaves
      ensures octaves == ClampOctaves(old(octaves))
      ensures octaves >= 1 && (old(octaves) >= 1 ==> octaves == old(octaves))
    {
      if octaves <= 0 {
        octaves := 1;
      }
    }

    /** A `resolution x resolution` grid, indexed `[x, y]`, that marks a
        cell walkable exactly when the terrain's steepness there is at most
        `pathMaxSteepness`. */
    method GenerateWalkableGrid(resolution: nat, steepness: Cell -> real) returns (walkableGrid: array2<bool>)
      ensures walkableGrid.Length0 == resolution && walkableGrid.Length1 == resolution
      ensures forall x, y :: 0 <= x < resolution && 0 <= y < resolution ==>
        walkableGrid[x, y] == (steepness(Cell(x, y)) <= pathMaxSteepness)
    {
      walkableGrid := new bool[resolution, resolution];
      for y := 0 to resolution
        invariant forall x', y' :: 0 <= x' < resolution && 0 <= y' < y ==>
          walkableGrid[x', y'] == (steepness(Cell(x', y')) <= pathMaxSteepness)
      {
        for x := 0 to resolution
          invariant forall x', y' :: 0 <= x' < resolution && 0 <= y' < y ==>
            walkableGrid[x', y'] == (steepness(Cell(x', y')) <= pathMaxSteepness)
          invariant forall x' :: 0 <= x' < x ==>
            walkableGrid[x', y] == (steepness(Cell(x', y)) <= pathMaxSteepness)
        {
          walkableGrid[x, y] := steepness(Cell(x, y)) <= pathMaxSteepness;
        }
      }
    }

    /** The scan for the highest sample of a height map read as
        `heights[y, x]`: a sample replaces the best so far only when
        strictly higher, so the first of several equal maxima wins. */
    method HighestCell(heights: array2<real>) returns (target: Cell, maxHeight: real)
      requires heights.Length0 == heights.Length1
      ensures IsScanMax(heights, target, maxHeight)
    {
      var resolution := heights.Length0;
      var maxX, maxY := 0, 0;
      maxHeight := FloatMinValue;
      for y := 0 to resolution
        invariant maxHeight >= FloatMinValue
        invariant forall y', x' :: 0 <= y' < y && 0 <= x' < resolution ==> heights[y', x'] <= maxHeight
        invariant maxHeight == FloatMinValue ==> maxX == 0 && maxY == 0
        invariant maxHeight > FloatMinValue ==>
          && 0 <= maxX < resolution && 0 <= maxY < y && heights[maxY, maxX] == maxHeight
          && forall y', x' :: 0 <= y' < resolution && 0 <= x' < resolution && ScansBefore(Cell(x', y'), Cell(maxX, maxY)) ==>
               heights[y', x'] < maxHeight
      {
        for x := 0 to resolution
          invariant maxHeight >= FloatMinValue
          invariant forall y', x' :: 0 <= y' < y && 0 <= x' < resolution ==> heights[y', x'] <= maxHeight
          invariant forall x' :: 0 <= x' < x ==> heights[y, x'] <= maxHeight
          invariant maxHeight == FloatMinValue ==> maxX == 0 && maxY == 0
          invariant maxHeight > FloatMinValue ==>
            && 0 <= maxX < resolution && 0 <= maxY <= y && (maxY == y ==> maxX < x)
            && heights[maxY, maxX] == maxHeight
            && forall y', x' :: 0 <= y' < resolution && 0 <= x' < resolution && ScansBefore(Cell(x', y'), Cell(maxX, maxY)) ==>
                 heights[y', x'] < maxHeight
        {
          if heights[y, x] > maxHeight {
            maxHeight := heights[y, x];
            maxX := x;
            maxY := y;
          }
        }
      }
      target := Cell(maxX, maxY);
    }

    /** `FindHighestPoint`: the cell and height of the highest sample, by the
        same scan; the conversion to a world position is not modelled. */
    method FindHighestPoint(heights: array2<real>) returns (cell: Cell, maxHeight: real)
      requires heights.Length0 == heights.Length1
      ensures IsScanMax(heights, cell, maxHeight)
    {
      cell, maxHeight := HighestCell(heights);
    }

    /** The route from the centre of the map to its highest sample. The search
        starts at `(resolution / 2, resolution / 2)`, targets the scan's
        highest cell, and walks over the grid of `GenerateWalkableGrid`. No
        route is reported exactly when no such walk reaches the target;
        otherwise every cell of a repetition-free walk to the target becomes
        one world point, in order. The target and the walk, local variables
        of the source, are returned beside the world points. */
    method FindPathFromCenterToHighestPoint(heights: array2<real>, steepness: Cell -> real,
                                            toWorld: Cell -> Vector3)
      returns (worldPath: Option<seq<Vector3>>, target: Cell, cells: seq<Cell>)
      requires heights.Length0 == heights.Length1
      ensures var res := heights.Length0;
        var start := Cell(res / 2, res / 2);
        && (exists m :: IsScanMax(heights, target, m))
        && (worldPath.None? <==>
              forall w :: IsClimb(w, start, res, steepness, pathMaxSteepness) ==> Last(w) != target)
        && (worldPath.Some? ==>
              && IsClimb(cells, start, res, steepness, pathMaxSteepness) && Last(cells) == target
              && Distinct(cells)
              && |worldPath.value| == |cells|
              && forall i :: 0 <= i < |cells| ==> worldPath.value[i] == toWorld(cells[i]))
    {
      var resolution := heights.Length0;
      var start := Cell(resolution / 2, resolution / 2);
      var goal, maxHeight := HighestCell(heights);
      target := goal;

      var walkableGrid := GenerateWalkableGrid(resolution, steepness);
      var pathfinder := new Pathfinding(walkableGrid);
      ClimbsAreRoutes(pathfinder, start, resolution, steepness);

      var path := pathfinder.FindPath(start, goal);
      assert IsScanMax(heights, target, maxHeight);
      if path.None? {
        assert forall w :: IsClimb(w, start, resolution, steepness, pathMaxSteepness) ==> Last(w) != target;
        cells := [];
        return None, target, cells;
      }
      var gridPath := path.value;
      cells := gridPath;
      var points: seq<Vector3> := [];
      for i := 0 to |gridPath|
        invariant |points| == i
        invariant forall j :: 0 <= j < i ==> points[j] == toWorld(gridPath[j])
      {
        points := points + [toWorld(gridPath[i])];
      }
      worldPath := Some(points);
    }

    /** Over the grid of `GenerateWalkableGrid`, the search's routes are
        exactly the climbs. */
    lemma ClimbsAreRoutes(pathfinder: Pathfinding, start: Cell, res: nat, steepness: Cell -> real)
      requires pathfinder.Valid() && pathfinder.width == res && pathfinder.height == res
      requires forall x, y :: 0 <= x < res && 0 <= y < res ==>
        pathfinder.walkableGrid[x, y] == (steepness(Cell(x, y)) <= pathMaxSteepness)
      ensures forall w :: pathfinder.IsRoute(w, start) <==> IsClimb(w, start, res, steepness, pathMaxSteepness)
    {
      forall w
        ensures pathfinder.IsRoute(w, start) <==> IsClimb(w, start, res, steepness, pathMaxSteepness)
      {
        forall k | 1 <= k < |w|
          ensures pathfinder.IsWalkable(w[k]) <==> InGrid(w[k], res) && steepness(w[k]) <= pathMaxSteepness
        {
        }
      }
    }
  }
}
