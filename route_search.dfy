/** The terrain generator of `Assets/Script/Terrain/TerrainMapGenerator.cs`:
    the route from the highest peak to the centre of the heightmap (a
    priority-queue search, a back-walk over the predecessor array, and a
    breadth-first shortening inside the cells of the first route), the peak
    scans, and the camp picker. Terrain sampling is supplied as a function. */
module RouteSearch {
  import opened Grid
  import opened MinQueue
  import opened RouteCost
  import opened RouteTree
  import opened RouteSweep

  /** Cell `(x, y)` comes no earlier than `(x0, y0)` in the row-by-row scan
      (`y` outer, `x` inner) of the peak searches. */
  predicate ScannedBefore(x: int, y: int, x0: int, y0: int)
  {
    y < y0 || (y == y0 && x < x0)
  }

  class TerrainMapGenerator {
    /** `heightmapResolution`: every grid is `resolution x resolution`. */
    const resolution: nat
    /** `mainPartHeightMap`, indexed `[x, y]`. */
    const heights: array2<real>
    /** `terrainData.GetSteepness` at a grid point, in degrees. */
    const steepness: Cell -> real
    const preset: PathfindingPreset
    const campMinimumDistance: int
    const campSize: int
    var campCount: int
    /** The colour grid the cost search leaves behind (0 Walk, 1 Climb, 2 Blocked). */
    var colors: array2<int>

    predicate Valid()
    {
      heights.Length0 == resolution && heights.Length1 == resolution
    }

    constructor(resolution: nat, heights: array2<real>, steepness: Cell -> real, preset: PathfindingPreset,
                campMinimumDistance: int, campSize: int, campCount: int)
      requires heights.Length0 == resolution && heights.Length1 == resolution
      ensures Valid()
      ensures this.resolution == resolution && this.heights == heights && this.steepness == steepness
      ensures this.preset == preset && this.campMinimumDistance == campMinimumDistance
      ensures this.campSize == campSize && this.campCount == campCount
      ensures fresh(colors)
    {
      this.resolution := resolution;
      this.heights := heights;
      this.steepness := steepness;
      this.preset := preset;
      this.campMinimumDistance := campMinimumDistance;
      this.campSize := campSize;
      this.campCount := campCount;
      colors := new int[0, 0];
    }

    // -------------------------------------------------------------------------
    // Peak scans

    /** What `FindHighestPeak` returns, in the source's swapped `(y, x)` order:
        `(0,0)` when every height is below the initial maximum -1, otherwise
        the LAST cell of the scan that holds the greatest height (the `>=`
        test empties the candidate list at every tie, so one cell remains). */
    ghost predicate IsHighestPeak(c: Cell)
      requires Valid()
      reads heights
    {
      if forall x, y :: 0 <= x < resolution && 0 <= y < resolution ==> heights[x, y] < -1.0 then
        c == Cell(0, 0)
      else
        InGrid(c, resolution) &&
        (forall x, y :: 0 <= x < resolution && 0 <= y < resolution ==> heights[x, y] <= heights[c.y, c.x]) &&
        (forall x, y :: 0 <= x < resolution && 0 <= y < resolution && ScannedBefore(c.y, c.x, x, y) ==>
           heights[x, y] < heights[c.y, c.x])
    }

    /** The state of `FindHighestPeak` after scanning every cell before `(x0, y0)`. */
    ghost predicate HighScan(maxVal: real, peaks: seq<Cell>, x0: int, y0: int)
      requires Valid()
      reads heights
    {
      (|peaks| == 0 && maxVal == -1.0 &&
        forall x, y :: 0 <= x < resolution && 0 <= y < resolution && ScannedBefore(x, y, x0, y0) ==>
          heights[x, y] < -1.0)
      ||
      (|peaks| == 1 && InGrid(peaks[0], resolution) && maxVal >= -1.0 &&
        ScannedBefore(peaks[0].y, peaks[0].x, x0, y0) && heights[peaks[0].y, peaks[0].x] == maxVal &&
        forall x, y :: 0 <= x < resolution && 0 <= y < resolution && ScannedBefore(x, y, x0, y0) ==>
          heights[x, y] <= maxVal &&
          (ScannedBefore(peaks[0].y, peaks[0].x, x, y) ==> heights[x, y] < maxVal))
    }

    method FindHighestPeak() returns (peak: Cell)
      requires Valid()
      ensures IsHighestPeak(peak)
    {
      var maxVal: real := -1.0;
      var peaks: seq<Cell> := [];
      var y := 0;
      while y < resolution
        invariant 0 <= y <= resolution
        invariant HighScan(maxVal, peaks, 0, y)
      {
        var x := 0;
        while x < resolution
          invariant 0 <= x <= resolution
          invariant HighScan(maxVal, peaks, x, y)
        {
          if heights[x, y] >= maxVal {
            maxVal := heights[x, y];
            peaks := [];
          }
          if heights[x, y] == maxVal {
            peaks := peaks + [Cell(y, x)];
          }
          x := x + 1;
        }
        y := y + 1;
      }
      if |peaks| == 0 {
        return Cell(0, 0);
      }
      // random.Next(0, peaks.Count): any index of the candidate list
      var k :| 0 <= k < |peaks|;
      peak := peaks[k];
    }

    /** `c`, in swapped `(y, x)` order, holds the least height of the map and
        that height is at most 2 (the scan's initial minimum). */
    ghost predicate IsLowestCell(c: Cell)
      requires Valid()
      reads heights
    {
      InGrid(c, resolution) && heights[c.y, c.x] <= 2.0 &&
      forall x, y :: 0 <= x < resolution && 0 <= y < resolution ==> heights[c.y, c.x] <= heights[x, y]
    }

    /** The state of `FindLowestPeak` after scanning every cell before `(x0, y0)`:
        `peaks` holds exactly the scanned cells of height `minVal`. */
    ghost predicate LowScan(minVal: real, peaks: seq<Cell>, x0: int, y0: int)
      requires Valid()
      reads heights
    {
      minVal <= 2.0 &&
      (forall k :: 0 <= k < |peaks| ==>
         InGrid(peaks[k], resolution) && ScannedBefore(peaks[k].y, peaks[k].x, x0, y0) &&
         heights[peaks[k].y, peaks[k].x] == minVal) &&
      (forall x, y :: 0 <= x < resolution && 0 <= y < resolution && ScannedBefore(x, y, x0, y0) ==>
         minVal <= heights[x, y] && (heights[x, y] == minVal ==> Cell(y, x) in peaks)) &&
      (|peaks| == 0 ==> minVal == 2.0)
    }

    /** `FindLowestPeak`: one of the cells of least height, or `(0,0)` when every
        height exceeds 2; `lows` is the whole candidate list the random pick
        draws from, and it holds exactly the lowest cells. */
    method FindLowestPeak() returns (peak: Cell, ghost lows: seq<Cell>)
      requires Valid()
      ensures (forall x, y :: 0 <= x < resolution && 0 <= y < resolution ==> heights[x, y] > 2.0) ==>
        peak == Cell(0, 0) && lows == []
      ensures lows != [] ==> peak in lows
      ensures forall c :: c in lows <==> IsLowestCell(c)
      ensures IsLowestCell(peak) ||
        (peak == Cell(0, 0) && forall x, y :: 0 <= x < resolution && 0 <= y < resolution ==> heights[x, y] > 2.0)
    {
      var minVal: real := 2.0;
      var peaks: seq<Cell> := [];
      var y := 0;
      while y < resolution
        invariant 0 <= y <= resolution
        invariant LowScan(minVal, peaks, 0, y)
      {
        var x := 0;
        while x < resolution
          invariant 0 <= x <= resolution
          invariant LowScan(minVal, peaks, x, y)
        {
          if heights[x, y] < minVal {
            minVal := heights[x, y];
            peaks := [];
          }
          if heights[x, y] == minVal {
            peaks := peaks + [Cell(y, x)];
          }
          x := x + 1;
        }
        y := y + 1;
      }
      lows := peaks;
      if |peaks| == 0 {
        return Cell(0, 0), lows;
      }
      var k :| 0 <= k < |peaks|;
      peak := peaks[k];
    }

    // -------------------------------------------------------------------------
    // Camps

    /** `CheckAreaCampCriteria`: the truncated steepness summed over the
        half-open window `[-(campSize/2), campSize/2)` around `point`. */
    method CheckAreaCampCriteria(point: Cell) returns (result: int)
      ensures result == AreaScore(steepness, point, campSize)
    {
      result := 0;
      var h := CsHalf(campSize);
      var x := -h;
      while x < h
        invariant -h <= x && (x <= h || x == -h)
        invariant result == WindowScore(steepness, point, -h, x, h)
      {
        var y := -h;
        while y < h
          invariant -h <= y <= h
          invariant result == WindowScore(steepness, point, -h, x, h) + ColumnScore(steepness, point, x, -h, y)
        {
          var newPoint := Cell(point.x + x, point.y + y);
          result := result + Truncate(steepness(newPoint));
          y := y + 1;
        }
        x := x + 1;
      }
    }

    /** The queue `FindCampsLocation` fills: walking the route from its end, one
        candidate every `Spacing(campMinimumDistance)` walkable points, starting
        with the first walkable point met, each scored by `AreaScore`. */
    ghost predicate IsCampCandidates(path: seq<Cell>, cands: seq<Entry<Cell>>)
    {
      var w := WalkableFromEnd(path, 0, steepness, preset.maxWalkableSteepness);
      var s := Spacing(campMinimumDistance);
      (|w| == 0 <==> |cands| == 0) &&
      (|cands| > 0 ==> (|cands| - 1) * s < |w| <= |cands| * s) &&
      forall j :: 0 <= j < |cands| ==>
        j * s < |w| && cands[j] == Entry(w[j * s], AreaScore(steepness, w[j * s], campSize))
    }

    /** The state of the candidate loop once it has scanned the walkable
        cells `w` (counted from the end of the path): a candidate on every
        `Spacing`-th of them, starting with the first, each scored by
        `AreaScore`, and `distance` cells passed since the last one. */
    ghost predicate CampScan(w: seq<Cell>, pq: seq<Entry<Cell>>, distance: int)
    {
      var s := Spacing(campMinimumDistance);
      && (|w| == 0 ==> distance == campMinimumDistance && pq == [])
      && (|w| > 0 ==> |pq| >= 1 && 0 <= distance < s && |w| - 1 == (|pq| - 1) * s + distance)
      && forall j :: 0 <= j < |pq| ==>
           j * s < |w| && pq[j] == Entry(w[j * s], AreaScore(steepness, w[j * s], campSize))
    }

    /** A walkable cell that comes too soon after the last candidate only
        advances the counter. */
    lemma CampSkip(w: seq<Cell>, pq: seq<Entry<Cell>>, distance: int, p: Cell)
      requires CampScan(w, pq, distance) && distance + 1 < campMinimumDistance
      ensures CampScan(w + [p], pq, distance + 1)
    {
      var s := Spacing(campMinimumDistance);
      forall j | 0 <= j < |pq|
        ensures j * s < |w + [p]| && (w + [p])[j * s] == w[j * s]
      {
      }
    }

    /** A walkable cell far enough from the last candidate becomes the next
        candidate and resets the counter. */
    lemma CampTake(w: seq<Cell>, pq: seq<Entry<Cell>>, distance: int, p: Cell)
      requires CampScan(w, pq, distance) && distance + 1 >= campMinimumDistance
      ensures CampScan(w + [p], pq + [Entry(p, AreaScore(steepness, p, campSize))], 0)
    {
      var s := Spacing(campMinimumDistance);
      var w', pq' := w + [p], pq + [Entry(p, AreaScore(steepness, p, campSize))];
      if |w| > 0 {
        assert distance == s - 1;
        assert |w| == |pq| * s by {
          assert (|pq| - 1) * s + s == |pq| * s;
        }
      }
      forall j | 0 <= j < |pq'|
        ensures j * s < |w'| && pq'[j] == Entry(w'[j * s], AreaScore(steepness, w'[j * s], campSize))
      {
        if j < |pq| {
          assert w'[j * s] == w[j * s];
        }
      }
    }

    /** The scan of the whole path yields the candidates `IsCampCandidates` describes. */
    lemma CampScanDone(path: seq<Cell>, pq: seq<Entry<Cell>>, distance: int)
      requires CampScan(WalkableFromEnd(path, 0, steepness, preset.maxWalkableSteepness), pq, distance)
      ensures IsCampCandidates(path, pq)
    {
      var w := WalkableFromEnd(path, 0, steepness, preset.maxWalkableSteepness);
      var s := Spacing(campMinimumDistance);
      if |pq| > 0 {
        assert (|pq| - 1) * s + s == |pq| * s;
      }
    }

    /** The first loop of `FindCampsLocation` (lines 508-524). */
    method CollectCampCandidates(path: seq<Cell>) returns (pq: seq<Entry<Cell>>)
      ensures IsCampCandidates(path, pq)
    {
      pq := [];
      var distance := campMinimumDistance;
      var i := |path|;
      while i > 0
        invariant 0 <= i <= |path|
        invariant CampScan(WalkableFromEnd(path, i, steepness, preset.maxWalkableSteepness), pq, distance)
      {
        ghost var w := WalkableFromEnd(path, i, steepness, preset.maxWalkableSteepness);
        i := i - 1;
        var point := path[i];
        if steepness(point) > preset.maxWalkableSteepness as real {
          continue;
        }
        assert WalkableFromEnd(path, i, steepness, preset.maxWalkableSteepness) == w + [point];
        distance := distance + 1;
        if distance < campMinimumDistance {
          CampSkip(w, pq, distance - 1, point);
          continue;
        }
        CampTake(w, pq, distance - 1, point);
        var criteriaPoints := CheckAreaCampCriteria(point);
        pq := pq + [Entry(point, criteriaPoints)];
        distance := 0;
      }
      CampScanDone(path, pq, distance);
    }

    /** `FindCampsLocation`: collect the candidates, lower `campCount` to their
        number when it is larger, then dequeue `campCount` of them. The camps
        come out in ascending score order, and no candidate left behind has a
        lower score than a chosen one. */
    method FindCampsLocation(path: seq<Cell>) returns (camps: seq<Cell>, ghost candidates: seq<Entry<Cell>>, ghost chosen: seq<Entry<Cell>>)
      modifies this`campCount
      ensures IsCampCandidates(path, candidates)
      ensures campCount == if old(campCount) > |candidates| then |candidates| else old(campCount)
      ensures |camps| == |chosen| == if campCount < 0 then 0 else campCount
      ensures forall k :: 0 <= k < |camps| ==> camps[k] == chosen[k].item
      ensures multiset(chosen) <= multiset(candidates)
      ensures forall i, j :: 0 <= i < j < |chosen| ==> chosen[i].priority <= chosen[j].priority
      ensures forall i, e :: 0 <= i < |chosen| && e in multiset(candidates) - multiset(chosen) ==>
        chosen[i].priority <= e.priority
    {
      var pq := CollectCampCandidates(path);
      candidates := pq;
      if campCount > |pq| {
        campCount := |pq|;
      }
      ghost var rest;
      camps, chosen, rest := ChooseCamps(pq, campCount);
      DequeuedRest(candidates, chosen, rest);
    }

    /** The second loop of `FindCampsLocation` (lines 526-531): dequeue the
        `count` best-scoring candidates, lowest score first. */
    method ChooseCamps(candidates: seq<Entry<Cell>>, count: int)
      returns (camps: seq<Cell>, ghost chosen: seq<Entry<Cell>>, ghost rest: seq<Entry<Cell>>)
      requires count <= |candidates|
      ensures |camps| == |chosen| == if count < 0 then 0 else count
      ensures forall k :: 0 <= k < |camps| ==> camps[k] == chosen[k].item
      ensures DequeuedInOrder(candidates, chosen, rest)
    {
      var queue := candidates;
      camps := [];
      chosen := [];
      var i := 0;
      while i < count
        invariant 0 <= i && (i <= count || i == 0)
        invariant |chosen| == |camps| == i && |queue| == |candidates| - i
        invariant forall k :: 0 <= k < i ==> camps[k] == chosen[k].item
        invariant DequeuedInOrder(candidates, chosen, queue)
      {
        var k := MinIndex(queue);
        DequeueStep(candidates, chosen, queue, k);
        chosen := chosen + [queue[k]];
        camps := camps + [queue[k].item];
        queue := RemoveAt(queue, k);
        i := i + 1;
      }
      rest := queue;
    }

    /** `chosen` left the queue in ascending score order and no entry still in
        `pq` scores below any of them; together they are the candidates. */
    ghost predicate DequeuedInOrder(candidates: seq<Entry<Cell>>, chosen: seq<Entry<Cell>>, pq: seq<Entry<Cell>>)
    {
      && multiset(chosen) + multiset(pq) == multiset(candidates)
      && (forall a, b :: 0 <= a < b < |chosen| ==> chosen[a].priority <= chosen[b].priority)
      && (forall a, e :: 0 <= a < |chosen| && e in pq ==> chosen[a].priority <= e.priority)
    }

    lemma DequeueStep(candidates: seq<Entry<Cell>>, chosen: seq<Entry<Cell>>, pq: seq<Entry<Cell>>, k: nat)
      requires DequeuedInOrder(candidates, chosen, pq)
      requires k < |pq| && forall j :: 0 <= j < |pq| ==> pq[k].priority <= pq[j].priority
      ensures DequeuedInOrder(candidates, chosen + [pq[k]], RemoveAt(pq, k))
    {
      var c := chosen + [pq[k]];
      var r := RemoveAt(pq, k);
      assert multiset(c) == multiset(chosen) + multiset{pq[k]};
      forall a, e | 0 <= a < |c| && e in r
        ensures c[a].priority <= e.priority
      {
        var j :| 0 <= j < |pq| && pq[j] == e;
      }
    }

    lemma DequeuedRest(candidates: seq<Entry<Cell>>, chosen: seq<Entry<Cell>>, pq: seq<Entry<Cell>>)
      requires DequeuedInOrder(candidates, chosen, pq)
      ensures multiset(chosen) <= multiset(candidates)
      ensures forall i, e :: 0 <= i < |chosen| && e in multiset(candidates) - multiset(chosen) ==>
        chosen[i].priority <= e.priority
    {
      assert multiset(candidates) - multiset(chosen) == multiset(pq);
    }

    // -------------------------------------------------------------------------
    // Route

    /** `p` is the list `Backtrack` builds before reversing it: `end`, then
        predecessors, each of lower rank than the one before it except that
        the first predecessor equals `end` when `end` is its own predecessor. */
    ghost predicate BackChain(before: array2<Cell>, rank: map<Cell, nat>, end: Cell, p: seq<Cell>)
      reads before
    {
      && Ranked(before, rank) && end in rank
      && |p| >= 2 && p[0] == end
      && (forall k :: 0 <= k < |p| ==> p[k] in rank)
      && (forall i, j :: 0 <= i && j == i + 1 < |p| ==> p[j] == before[p[i].x, p[i].y])
      && (forall i, j :: 1 <= i && j == i + 1 < |p| ==> rank[p[j]] < rank[p[i]])
      && (before[end.x, end.y] != end ==> rank[p[1]] < rank[end])
      && (before[end.x, end.y] == end ==> p == [end, end])
    }

    /** `Backtrack`: follow `before` from `end` until a cell is its own
        predecessor, then reverse. The route starts at that fixed point, ends at
        `end`, and each cell is the predecessor of the next; ranks rise strictly
        along it, except that a fixed-point `end` gives the two-cell route
        `[end, end]` (the loop always adds one predecessor before testing). */
    method Backtrack(start: Cell, end: Cell, before: array2<Cell>, ghost rank: map<Cell, nat>) returns (path: seq<Cell>)
      requires Ranked(before, rank) && end in rank
      ensures |path| >= 2 && path[|path| - 1] == end
      ensures forall k :: 0 <= k < |path| ==> path[k] in rank
      ensures before[path[0].x, path[0].y] == path[0]
      ensures forall i, j :: 0 <= i && j == i + 1 < |path| ==> path[i] == before[path[j].x, path[j].y]
      ensures forall i, j :: 0 <= i && j == i + 1 < |path| - 1 ==> rank[path[i]] < rank[path[j]]
      ensures before[end.x, end.y] == end <==> path == [end, end]
      ensures before[end.x, end.y] != end ==> rank[path[|path| - 2]] < rank[end]
    {
      var p := [end];
      var currentPoint := before[end.x, end.y];
      var lastPoint := currentPoint;
      p := p + [currentPoint];
      BackChainStart(before, rank, end);
      lastPoint := currentPoint;
      currentPoint := before[currentPoint.x, currentPoint.y];
      while currentPoint != lastPoint
        invariant BackChain(before, rank, end, p) && lastPoint == p[|p| - 1]
        invariant currentPoint == before[lastPoint.x, lastPoint.y]
        decreases rank[lastPoint]
      {
        BackChainExtend(before, rank, end, p, currentPoint);
        p := p + [currentPoint];
        lastPoint := currentPoint;
        currentPoint := before[currentPoint.x, currentPoint.y];
      }
      path := Reversed(p);
      BackChainReversed(before, rank, end, p);
    }

    lemma BackChainStart(before: array2<Cell>, rank: map<Cell, nat>, end: Cell)
      requires Ranked(before, rank) && end in rank
      ensures BackChain(before, rank, end, [end, before[end.x, end.y]])
    {
    }

    lemma BackChainExtend(before: array2<Cell>, rank: map<Cell, nat>, end: Cell, p: seq<Cell>, c: Cell)
      requires BackChain(before, rank, end, p)
      requires c == before[p[|p| - 1].x, p[|p| - 1].y] && c != p[|p| - 1]
      ensures BackChain(before, rank, end, p + [c])
      ensures rank[c] < rank[p[|p| - 1]]
    {
      var q := p + [c];
      assert forall k :: 0 <= k < |p| ==> q[k] == p[k];
    }

    lemma BackChainReversed(before: array2<Cell>, rank: map<Cell, nat>, end: Cell, p: seq<Cell>)
      requires BackChain(before, rank, end, p)
      requires before[p[|p| - 1].x, p[|p| - 1].y] == p[|p| - 1]
      ensures var path := Reversed(p);
        && path[|path| - 1] == end
        && before[path[0].x, path[0].y] == path[0]
        && (forall i, j :: 0 <= i && j == i + 1 < |path| ==> path[i] == before[path[j].x, path[j].y])
        && (forall i, j :: 0 <= i && j == i + 1 < |path| - 1 ==> rank[path[i]] < rank[path[j]])
        && (before[end.x, end.y] == end <==> path == [end, end])
        && (before[end.x, end.y] != end ==> rank[path[|path| - 2]] < rank[end])
    {
      var path := Reversed(p);
      var n := |p|;
      forall i, j | 0 <= i && j == i + 1 < n
        ensures path[i] == before[path[j].x, path[j].y]
      {
        assert path[i] == p[n - 1 - i] && path[j] == p[n - 2 - i];
      }
      forall i, j | 0 <= i && j == i + 1 < n - 1
        ensures rank[path[i]] < rank[path[j]]
      {
        assert path[i] == p[n - 1 - i] && path[j] == p[n - 2 - i];
      }
      if path == [end, end] {
        assert p == [end, end];
      }
    }

    // -------------------------------------------------------------------------
    // Cost search

    /** The entry one relaxation gives the grid cell `n`: its colour and its
        priority scaled by steepness (lines 328-352). */
    function Relaxed(distTop: int, n: Cell): Entry<Visit>
    {
      var r := Classify(distTop, steepness(n), preset);
      Entry(Visit(n, r.color), ScaledPriority(r.priority, steepness(n)))
    }

    /** The colour a relaxation gives cell `c`, whatever the distance. */
    function CellColour(c: Cell): int
    {
      Classify(0, steepness(c), preset).color
    }

    /** The entries the relaxation of `top` appends for the first `n` offsets
        of the table, in table order; `seen` is the set of visited cells. */
    ghost function Expansion(top: Cell, distTop: int, seen: set<Cell>, n: nat): seq<Entry<Visit>>
      requires n <= |Directions()|
    {
      if n == 0 then []
      else
        var c := top.Plus(Directions()[n - 1]);
        Expansion(top, distTop, seen, n - 1) +
          if InGrid(c, resolution) && c !in seen then [Relaxed(distTop, c)] else []
    }

    /** A relaxation enqueues only unvisited grid cells one table step from
        `top`, each with the entry `Relaxed` gives it (so with the colour
        `CellColour`), and it enqueues every such cell the offsets reach. */
    lemma {:induction false} ExpansionIsFreshNeighbours(top: Cell, distTop: int, seen: set<Cell>, n: nat)
      requires n <= |Directions()|
      ensures forall e :: e in Expansion(top, distTop, seen, n) ==>
        FreshStep(top, e.item.cell, resolution, seen) && e == Relaxed(distTop, e.item.cell) &&
        e.item.color == CellColour(e.item.cell)
      ensures forall k :: 0 <= k < n && FreshStep(top, top.Plus(Directions()[k]), resolution, seen) ==>
        top.Plus(Directions()[k]) in CellsOf(Expansion(top, distTop, seen, n))
    {
      if n > 0 {
        ExpansionIsFreshNeighbours(top, distTop, seen, n - 1);
        var c := top.Plus(Directions()[n - 1]);
        assert c.Minus(top) == Directions()[n - 1];
        var rest := Expansion(top, distTop, seen, n - 1);
        CellsOfAppend(rest, [Relaxed(distTop, c)]);
      }
    }

    /** The inner loop of `Dijkstra` (lines 320-353): every unvisited grid
        neighbour of `top` gets `top` as predecessor and a queue entry. */
    method Relax(top: Cell, distTop: int, visited: array2<bool>, ghost seen: set<Cell>, before: array2<Cell>,
                 ghost bm: map<Cell, Cell>, pq: seq<Entry<Visit>>) returns (pq': seq<Entry<Visit>>)
      requires visited.Length0 == resolution && visited.Length1 == resolution
      requires Mirrors(before, resolution, bm)
      requires forall c :: InGrid(c, resolution) ==> (visited[c.x, c.y] <==> c in seen)
      modifies before
      ensures pq' == pq + Expansion(top, distTop, seen, |Directions()|)
      ensures forall c :: InGrid(c, resolution) ==>
        before[c.x, c.y] == if FreshStep(top, c, resolution, seen) then top else old(before[c.x, c.y])
      ensures Mirrors(before, resolution, Redirect(top, resolution, seen, bm))
    {
      var d := Directions();
      pq' := pq;
      var i := 0;
      while i < |d|
        invariant 0 <= i <= |d|
        invariant pq' == pq + Expansion(top, distTop, seen, i)
        invariant forall c {:trigger before[c.x, c.y]} :: InGrid(c, resolution) ==>
          before[c.x, c.y] == if c in CellsOf(Expansion(top, distTop, seen, i)) then top else bm[c]
      {
        var newPoint := top.Plus(d[i]);
        ghost var step := if InGrid(newPoint, resolution) && newPoint !in seen then [Relaxed(distTop, newPoint)] else [];
        ghost var e := Expansion(top, distTop, seen, i);
        assert Expansion(top, distTop, seen, i + 1) == e + step;
        assert pq' + step == pq + (e + step);
        CellsOfAppend(e, step);
        i := i + 1;
        if 0 <= newPoint.x < resolution && 0 <= newPoint.y < resolution && !visited[newPoint.x, newPoint.y] {
          before[newPoint.x, newPoint.y] := top;
          pq' := pq' + [Relaxed(distTop, newPoint)];
        }
      }
      ExpansionCoversFresh(top, distTop, seen);
      MirrorsRedirect(before, top, resolution, seen, bm, Expansion(top, distTop, seen, |d|));
    }

    /** The full relaxation of `top` enqueues exactly its fresh steps. */
    lemma ExpansionCoversFresh(top: Cell, distTop: int, seen: set<Cell>)
      ensures forall c :: FreshStep(top, c, resolution, seen) <==>
        c in CellsOf(Expansion(top, distTop, seen, |Directions()|))
    {
      var d := Directions();
      ExpansionIsFreshNeighbours(top, distTop, seen, |d|);
      forall c | FreshStep(top, c, resolution, seen)
        ensures c in CellsOf(Expansion(top, distTop, seen, |d|))
      {
        var k :| 0 <= k < |d| && d[k] == c.Minus(top);
        assert top.Plus(d[k]) == c;
      }
    }

    /** What the arrays of `Dijkstra` hold for the visited set `hops`: the
        visited flags mark exactly `hops`, the distance counter of a visited
        cell is its hop count plus one, a visited cell other than `start` has
        its classification colour, and every other cell keeps colour 0. */
    ghost predicate Settled(start: Cell, visited: array2<bool>, dist: array2<int>, col: array2<int>,
                            hops: map<Cell, nat>)
      reads visited, dist, col
    {
      && InGrid(start, resolution)
      && visited.Length0 == resolution && visited.Length1 == resolution
      && dist.Length0 == resolution && dist.Length1 == resolution
      && col.Length0 == resolution && col.Length1 == resolution
      && (forall c {:trigger visited[c.x, c.y]} :: InGrid(c, resolution) ==> (visited[c.x, c.y] <==> c in hops))
      && (forall c :: c in hops ==> InGrid(c, resolution))
      && (forall c {:trigger dist[c.x, c.y]} :: c in hops ==> InGrid(c, resolution) && dist[c.x, c.y] == hops[c])
      && (start !in hops ==> dist[start.x, start.y] == 0)
      && col[start.x, start.y] == 0
      && (forall c {:trigger col[c.x, c.y]} :: InGrid(c, resolution) && c in hops && c != start ==>
            col[c.x, c.y] == CellColour(c))
      && (forall c {:trigger col[c.x, c.y]} :: InGrid(c, resolution) && c !in hops ==> col[c.x, c.y] == 0)
    }

    /** The visit step of `Dijkstra` (lines 312-318): mark `top` visited,
        give it the colour of its queue entry and one more than its
        predecessor's distance. */
    method Settle(start: Cell, top: Cell, color: int, before: array2<Cell>, visited: array2<bool>,
                  dist: array2<int>, col: array2<int>, ghost bm: map<Cell, Cell>, ghost hops: map<Cell, nat>)
      returns (ghost hops': map<Cell, nat>)
      requires dist != col
      requires Settled(start, visited, dist, col, hops) && Mirrors(before, resolution, bm)
      requires InGrid(top, resolution) && top !in hops
      requires top == start ==> bm[top] == top && color == 0
      requires top != start ==> bm[top] in hops && color == CellColour(top)
      modifies visited, dist, col
      ensures hops' == hops[top := if top == start then 1 else hops[bm[top]] + 1]
      ensures hops'.Keys == hops.Keys + {top}
      ensures Settled(start, visited, dist, col, hops')
    {
      visited[top.x, top.y] := true;
      col[top.x, top.y] := color;
      var b := before[top.x, top.y];
      dist[top.x, top.y] := dist[b.x, b.y] + 1;
      hops' := hops[top := dist[top.x, top.y]];
    }

    /** One visit of `Dijkstra` (lines 306-353) for the unvisited queue entry
        at index `i`: remove it, settle its cell, and unless that cell is
        `end` relax the cell's neighbours. The search invariant `Frontier`
        carries over to the new queue, tree and visiting order. */
    method Explore(start: Cell, end: Cell, pq: seq<Entry<Visit>>, i: nat, before: array2<Cell>,
                 visited: array2<bool>, dist: array2<int>, col: array2<int>,
                 ghost bm: map<Cell, Cell>, ghost hops: map<Cell, nat>, ghost order: seq<Cell>)
      returns (pq': seq<Entry<Visit>>, ghost bm': map<Cell, Cell>, ghost hops': map<Cell, nat>, ghost order': seq<Cell>)
      requires dist != col
      requires Frontier(start, end, resolution, bm, pq, hops, order)
      requires Mirrors(before, resolution, bm) && Settled(start, visited, dist, col, hops)
      requires forall e :: e in pq && e.item.cell != start ==> e.item.color == CellColour(e.item.cell)
      requires i < |pq| && pq[i].item.cell !in hops
      modifies before, visited, dist, col
      ensures hops'.Keys == hops.Keys + {pq[i].item.cell}
      ensures order' == order + [pq[i].item.cell]
      ensures Mirrors(before, resolution, bm') && Settled(start, visited, dist, col, hops')
      ensures pq[i].item.cell == end ==>
        MapTree(bm', hops', start) && hops'[start] == 1 && Distinct(order') &&
        (forall c :: c in hops' <==> c in order') && order'[0] == start
      ensures pq[i].item.cell != end ==> Frontier(start, end, resolution, bm', pq', hops', order')
      ensures forall e :: e in pq' && e.item.cell != start ==> e.item.color == CellColour(e.item.cell)
    {
      var res := resolution;
      var tmp := pq[i];
      assert tmp in pq;
      var top := tmp.item.cell;
      pq' := RemoveAt(pq, i);
      hops' := Settle(start, top, tmp.item.color, before, visited, dist, col, bm, hops);
      order' := order + [top];
      if top == end {
        FrontierVisitTree(start, end, res, bm, pq, hops, order, i, hops'[top]);
        bm' := bm;
        return;
      }
      var distTop := dist[top.x, top.y];
      bm' := Redirect(top, res, hops'.Keys, bm);
      pq' := Relax(top, distTop, visited, hops'.Keys, before, bm, pq');
      FrontierRelaxed(start, end, bm, pq, hops, order, i, hops', distTop);
    }

    /** Visiting the entry at `i` and relaxing its cell keeps the search
        invariant, and entries other than `start` keep their classification
        colour. */
    lemma FrontierRelaxed(start: Cell, end: Cell, bm: map<Cell, Cell>, pq: seq<Entry<Visit>>,
                          hops: map<Cell, nat>, order: seq<Cell>, i: nat, hops': map<Cell, nat>, distTop: int)
      requires Frontier(start, end, resolution, bm, pq, hops, order)
      requires forall e :: e in pq && e.item.cell != start ==> e.item.color == CellColour(e.item.cell)
      requires i < |pq| && pq[i].item.cell !in hops && pq[i].item.cell != end
      requires hops' == hops[pq[i].item.cell := if pq[i].item.cell == start then 1 else hops[bm[pq[i].item.cell]] + 1]
      ensures var top := pq[i].item.cell;
        var pq' := RemoveAt(pq, i) + Expansion(top, distTop, hops'.Keys, |Directions()|);
        && Frontier(start, end, resolution, Redirect(top, resolution, hops'.Keys, bm), pq', hops', order + [top])
        && forall e :: e in pq' && e.item.cell != start ==> e.item.color == CellColour(e.item.cell)
    {
      var top := pq[i].item.cell;
      var seen := hops'.Keys;
      var added := Expansion(top, distTop, seen, |Directions()|);
      ExpansionIsFreshNeighbours(top, distTop, seen, |Directions()|);
      RedirectIsRelaxed(top, resolution, seen, bm, added);
      FrontierVisit(start, end, resolution, bm, pq, hops, order, i, hops'[top], Redirect(top, resolution, seen, bm), added, hops');
    }

    /** The set-up of `Dijkstra` (lines 294-305): fresh grids of flags,
        distances, colours and predecessors, with `start` as its own
        predecessor and nothing visited. */
    method NewSearch(start: Cell) returns (before: array2<Cell>, visited: array2<bool>, dist: array2<int>,
                                           col: array2<int>, ghost bm: map<Cell, Cell>)
      requires InGrid(start, resolution)
      ensures fresh(before) && fresh(visited) && fresh(dist) && fresh(col) && dist != col
      ensures Mirrors(before, resolution, bm) && bm[start] == start
      ensures Settled(start, visited, dist, col, map[])
    {
      var res := resolution;
      col := new int[res, res]((_, _) => 0);
      visited := new bool[res, res]((_, _) => false);
      dist := new int[res, res]((_, _) => 0);
      before := new Cell[res, res]((_, _) => Cell(0, 0));
      bm := map c | c in RectCells(res, res) :: Cell(0, 0);
      before[start.x, start.y] := start;
      bm := bm[start := start];
    }

    /** `Dijkstra` (lines 292-357): pop the least-priority entry, skip it if its
        cell was visited, otherwise visit it (colour from the entry, distance one
        more than its predecessor's), stop at `end`, else relax its neighbours.
        The visited cells form a tree of table steps rooted at `start` in which
        the distance counter is the hop count plus one (`start` itself gets 1);
        each cell is visited once; the search reaches `end` whenever `end` is a
        grid cell, because the axis moves of the table connect the whole grid,
        and otherwise it visits every cell. */
    method Dijkstra(start: Cell, end: Cell) returns (before: array2<Cell>, ghost hops: map<Cell, nat>, ghost order: seq<Cell>)
      requires InGrid(start, resolution)
      modifies this`colors
      ensures fresh(before) && fresh(colors)
      ensures before.Length0 == resolution && before.Length1 == resolution
      ensures colors.Length0 == resolution && colors.Length1 == resolution
      ensures SearchTree(before, hops, start) && hops[start] == 1
      ensures Distinct(order) && |order| >= 1 && order[0] == start
      ensures forall c :: c in hops <==> c in order
      ensures InGrid(end, resolution) ==> order[|order| - 1] == end
      ensures !InGrid(end, resolution) ==> forall c :: InGrid(c, resolution) ==> c in hops
      ensures colors[start.x, start.y] == 0
      ensures forall c :: c in hops && c != start ==> colors[c.x, c.y] == CellColour(c)
      ensures forall c :: InGrid(c, resolution) && c !in hops ==> colors[c.x, c.y] == 0
    {
      var visited, dist, col;
      ghost var bm;
      before, visited, dist, col, bm := NewSearch(start);
      colors := col;
      FrontierStart(start, end, resolution, bm);
      hops, order := Search(start, end, before, visited, dist, col, bm);
    }

    /** The main loop of `Dijkstra` (lines 307-354): take the cheapest
        entry, skip it when its cell is already visited, otherwise visit it
        and stop at `end`, relaxing its neighbours otherwise. */
    method Search(start: Cell, end: Cell, before: array2<Cell>, visited: array2<bool>, dist: array2<int>,
                  col: array2<int>, ghost bm: map<Cell, Cell>) returns (ghost hops: map<Cell, nat>, ghost order: seq<Cell>)
      requires dist != col
      requires Frontier(start, end, resolution, bm, [Entry(Visit(start, 0), 0)], map[], [])
      requires Mirrors(before, resolution, bm) && Settled(start, visited, dist, col, map[])
      modifies before, visited, dist, col
      ensures Searched(start, end, before, hops, order)
      ensures Settled(start, visited, dist, col, hops)
    {
      var pq := [Entry(Visit(start, 0), 0)];
      ghost var bm := bm;
      hops := map[];
      order := [];
      while |pq| != 0
        invariant Frontier(start, end, resolution, bm, pq, hops, order)
        invariant Mirrors(before, resolution, bm)
        invariant Settled(start, visited, dist, col, hops)
        invariant forall e :: e in pq && e.item.cell != start ==> e.item.color == CellColour(e.item.cell)
        decreases RectCells(resolution, resolution) - hops.Keys, |pq|
      {
        var found;
        pq, bm, hops, order, found := VisitNext(start, end, pq, before, visited, dist, col, bm, hops, order);
        if found {
          return;
        }
      }
      SearchExhausted(start, end, before, bm, hops, order);
    }

    /** What `Dijkstra` leaves behind: a search tree rooted at `start` with
        `start` at hop count 1, and the visiting order, which lists each
        visited cell once, starts at `start`, and ends at `end` when `end`
        lies in the grid; when it does not, the whole grid was visited. */
    ghost predicate Searched(start: Cell, end: Cell, before: array2<Cell>, hops: map<Cell, nat>, order: seq<Cell>)
      reads before
    {
      && SearchTree(before, hops, start) && start in hops && hops[start] == 1
      && Distinct(order) && |order| >= 1 && order[0] == start
      && (forall c :: c in hops <==> c in order)
      && (InGrid(end, resolution) ==> order[|order| - 1] == end)
      && (!InGrid(end, resolution) ==> forall c :: InGrid(c, resolution) ==> c in hops)
    }

    /** An emptied queue leaves the whole grid visited, so `end` lies outside it. */
    lemma SearchExhausted(start: Cell, end: Cell, before: array2<Cell>, bm: map<Cell, Cell>,
                          hops: map<Cell, nat>, order: seq<Cell>)
      requires Frontier(start, end, resolution, bm, [], hops, order) && Mirrors(before, resolution, bm)
      ensures Searched(start, end, before, hops, order)
    {
      FrontierDone(start, end, resolution, bm, hops, order);
      TreeOfArray(before, resolution, bm, hops, start);
    }

    /** One turn of the main loop of `Dijkstra` (lines 309-353): dequeue the
        cheapest entry; an already visited cell is skipped, any other is
        visited, and `found` reports that it was `end`. Either the visited set
        grows or it stays and the queue shrinks. */
    method VisitNext(start: Cell, end: Cell, pq: seq<Entry<Visit>>, before: array2<Cell>,
                     visited: array2<bool>, dist: array2<int>, col: array2<int>,
                     ghost bm: map<Cell, Cell>, ghost hops: map<Cell, nat>, ghost order: seq<Cell>)
      returns (pq': seq<Entry<Visit>>, ghost bm': map<Cell, Cell>, ghost hops': map<Cell, nat>, ghost order': seq<Cell>,
               found: bool)
      requires dist != col && |pq| != 0
      requires Frontier(start, end, resolution, bm, pq, hops, order)
      requires Mirrors(before, resolution, bm) && Settled(start, visited, dist, col, hops)
      requires forall e :: e in pq && e.item.cell != start ==> e.item.color == CellColour(e.item.cell)
      modifies before, visited, dist, col
      ensures Mirrors(before, resolution, bm') && Settled(start, visited, dist, col, hops')
      ensures found ==> Searched(start, end, before, hops', order')
      ensures !found ==> Frontier(start, end, resolution, bm', pq', hops', order')
      ensures !found ==> forall e :: e in pq' && e.item.cell != start ==> e.item.color == CellColour(e.item.cell)
      ensures !found ==>
        RectCells(resolution, resolution) - hops'.Keys < RectCells(resolution, resolution) - hops.Keys ||
        (hops'.Keys == hops.Keys && |pq'| < |pq|)
    {
      var i := MinIndex(pq);
      var tmp := pq[i];
      assert tmp in pq;
      var top := tmp.item.cell;
      if visited[top.x, top.y] {
        FrontierSkip(start, end, resolution, bm, pq, hops, order, i);
        pq', bm', hops', order', found := RemoveAt(pq, i), bm, hops, order, false;
        return;
      }
      pq', bm', hops', order' := Explore(start, end, pq, i, before, visited, dist, col, bm, hops, order);
      found := top == end;
      if found {
        TreeOfArray(before, resolution, bm', hops', start);
      } else {
        assert top in RectCells(resolution, resolution);
      }
    }

    /** The inner loop of `FindFinalPath` (lines 386-403): every grid
        neighbour of `point` that lies on the first route and is not yet
        visited is marked visited and gets `point` as predecessor; `added`
        lists them in the order they join the queue. They are exactly the
        fresh allowed neighbours of `point`, each listed once. */
    method Spread(point: Cell, mapToSearch: array2<bool>, visited: array2<bool>, before: array2<Cell>,
                  ghost allowed: set<Cell>, ghost seen: set<Cell>, ghost bm: map<Cell, Cell>)
      returns (added: seq<Cell>)
      requires mapToSearch != visited
      requires mapToSearch.Length0 == resolution && mapToSearch.Length1 == resolution
      requires visited.Length0 == resolution && visited.Length1 == resolution
      requires Mirrors(before, resolution, bm)
      requires forall c {:trigger mapToSearch[c.x, c.y]} :: InGrid(c, resolution) ==> (mapToSearch[c.x, c.y] <==> c in allowed)
      requires forall c {:trigger visited[c.x, c.y]} :: InGrid(c, resolution) ==> (visited[c.x, c.y] <==> c in seen)
      modifies visited, before
      ensures Expands(point, resolution, allowed, seen, added)
      ensures forall c {:trigger visited[c.x, c.y]} :: InGrid(c, resolution) ==> (visited[c.x, c.y] <==> c in seen || c in added)
      ensures Mirrors(before, resolution, Adopt(bm, added, point))
    {
      var d := Directions();
      added := [];
      var i := 0;
      while i < |d|
        invariant 0 <= i <= |d|
        invariant added == Spreading(point, resolution, allowed, seen, i)
        invariant forall c {:trigger visited[c.x, c.y]} :: InGrid(c, resolution) ==> (visited[c.x, c.y] <==> c in seen || c in added)
        invariant forall c {:trigger before[c.x, c.y]} :: InGrid(c, resolution) ==>
          before[c.x, c.y] == if c in added then point else bm[c]
      {
        var newPoint := point.Plus(d[i]);
        assert Spreading(point, resolution, allowed, seen, i + 1) ==
          if InGrid(newPoint, resolution) && newPoint in allowed && newPoint !in seen && newPoint !in added
          then added + [newPoint] else added;
        i := i + 1;
        if 0 <= newPoint.x < resolution && 0 <= newPoint.y < resolution &&
           mapToSearch[newPoint.x, newPoint.y] && !visited[newPoint.x, newPoint.y]
        {
          before[newPoint.x, newPoint.y] := point;
          visited[newPoint.x, newPoint.y] := true;
          added := added + [newPoint];
        }
      }
      SpreadingExpands(point, resolution, allowed, seen);
    }

    /** The marking loop of `FindFinalPath` (lines 361-367): a fresh grid of
        flags that is set exactly on the cells of `raw`. */
    method MarkRoute(raw: seq<Cell>) returns (mapToSearch: array2<bool>)
      requires forall k :: 0 <= k < |raw| ==> InGrid(raw[k], resolution)
      ensures fresh(mapToSearch)
      ensures mapToSearch.Length0 == resolution && mapToSearch.Length1 == resolution
      ensures forall c :: InGrid(c, resolution) ==> (mapToSearch[c.x, c.y] <==> c in raw)
    {
      mapToSearch := new bool[resolution, resolution]((_, _) => false);
      for i := 0 to |raw|
        invariant forall c :: InGrid(c, resolution) ==> (mapToSearch[c.x, c.y] <==> c in raw[..i])
      {
        mapToSearch[raw[i].x, raw[i].y] := true;
      }
      assert raw[..|raw|] == raw;
    }

    /** The set-up of the breadth-first search of `FindFinalPath` (lines
        360-376): fresh flag and predecessor grids in which only `start` is
        visited and is its own predecessor, every other cell keeping the
        default predecessor `(0,0)`. */
    method NewSweep(start: Cell, ghost allowed: set<Cell>)
      returns (visited: array2<bool>, before: array2<Cell>, ghost bm: map<Cell, Cell>)
      requires InGrid(start, resolution) && start in allowed
      ensures fresh(visited) && fresh(before)
      ensures visited.Length0 == resolution && visited.Length1 == resolution
      ensures Mirrors(before, resolution, bm)
      ensures Sweep(start, resolution, allowed, bm, map[start := 0], [start])
      ensures Layered(start, resolution, allowed, map[start := 0], [start])
      ensures forall c :: InGrid(c, resolution) ==> (visited[c.x, c.y] <==> c == start)
    {
      var res := resolution;
      visited := new bool[res, res]((_, _) => false);
      before := new Cell[res, res]((_, _) => Cell(0, 0));
      before[start.x, start.y] := start;
      visited[start.x, start.y] := true;
      bm := (map c | c in RectCells(res, res) :: Cell(0, 0))[start := start];
      SweepStart(start, res, allowed, bm);
    }

    /** One round of the breadth-first search of `FindFinalPath` (lines
        380-403): the head of the queue leaves it, and its fresh neighbours
        inside the route join the queue with that cell as their predecessor. The search
        invariant `Sweep` survives, and either a new cell was reached or the
        queue is one cell shorter. */
    method Widen(mapToSearch: array2<bool>, visited: array2<bool>, before: array2<Cell>,
                 queue: seq<Cell>, ghost start: Cell, ghost allowed: set<Cell>, ghost bm: map<Cell, Cell>,
                 ghost hops: map<Cell, nat>)
      returns (queue': seq<Cell>, ghost bm': map<Cell, Cell>, ghost hops': map<Cell, nat>)
      requires mapToSearch != visited
      requires mapToSearch.Length0 == resolution && mapToSearch.Length1 == resolution
      requires visited.Length0 == resolution && visited.Length1 == resolution
      requires |queue| > 0
      requires Sweep(start, resolution, allowed, bm, hops, queue) && Layered(start, resolution, allowed, hops, queue)
      requires Mirrors(before, resolution, bm)
      requires forall c :: InGrid(c, resolution) ==> (mapToSearch[c.x, c.y] <==> c in allowed)
      requires forall c :: InGrid(c, resolution) ==> (visited[c.x, c.y] <==> c in hops)
      modifies visited, before
      ensures Sweep(start, resolution, allowed, bm', hops', queue') && Layered(start, resolution, allowed, hops', queue')
      ensures Mirrors(before, resolution, bm')
      ensures forall c :: InGrid(c, resolution) ==> (visited[c.x, c.y] <==> c in hops')
      ensures RectCells(resolution, resolution) - hops'.Keys < RectCells(resolution, resolution) - hops.Keys
              || (hops'.Keys == hops.Keys && |queue'| < |queue|)
    {
      var added := Spread(queue[0], mapToSearch, visited, before, allowed, hops.Keys, bm);
      queue' := queue[1..] + added;
      bm', hops' := Adopt(bm, added, queue[0]), Deepen(hops, added, hops[queue[0]] + 1);
      SweepStep(start, resolution, allowed, bm, hops, queue, added, bm', hops', queue');
      LayeredStep(start, resolution, allowed, hops, queue, added, hops');
      SweepProgress(resolution, hops, added, hops');
    }

    /** The search loop of `FindFinalPath` (lines 378-404): rounds of
        `Widen` until the queue is empty or has `end` at its head. */
    method SweepQueue(end: Cell, mapToSearch: array2<bool>, visited: array2<bool>, before: array2<Cell>,
                      queue: seq<Cell>, ghost start: Cell, ghost allowed: set<Cell>, ghost bm: map<Cell, Cell>,
                      ghost hops: map<Cell, nat>)
      returns (queue': seq<Cell>, ghost bm': map<Cell, Cell>, ghost hops': map<Cell, nat>)
      requires mapToSearch != visited
      requires mapToSearch.Length0 == resolution && mapToSearch.Length1 == resolution
      requires visited.Length0 == resolution && visited.Length1 == resolution
      requires Sweep(start, resolution, allowed, bm, hops, queue) && Layered(start, resolution, allowed, hops, queue)
      requires Mirrors(before, resolution, bm)
      requires forall c :: InGrid(c, resolution) ==> (mapToSearch[c.x, c.y] <==> c in allowed)
      requires forall c :: InGrid(c, resolution) ==> (visited[c.x, c.y] <==> c in hops)
      modifies visited, before
      ensures Sweep(start, resolution, allowed, bm', hops', queue') && Layered(start, resolution, allowed, hops', queue')
      ensures Mirrors(before, resolution, bm')
      ensures |queue'| == 0 || queue'[0] == end
    {
      queue', bm', hops' := queue, bm, hops;
      while |queue'| > 0
        invariant Sweep(start, resolution, allowed, bm', hops', queue') && Layered(start, resolution, allowed, hops', queue')
        invariant Mirrors(before, resolution, bm')
        invariant forall c :: InGrid(c, resolution) ==> (visited[c.x, c.y] <==> c in hops')
        decreases RectCells(resolution, resolution) - hops'.Keys, |queue'|
      {
        var point := queue'[0];
        if point == end {
          break;
        }
        queue', bm', hops' := Widen(mapToSearch, visited, before, queue', start, allowed, bm', hops');
      }
    }

    /** The breadth-first search of `FindFinalPath` (lines 360-404) from
        the first cell of `raw`, through the cells of `raw` only, stopping
        when the last cell of `raw` leaves the queue. The predecessor grid it
        leaves behind is a tree of table steps over the visited cells
        `hops`, all of them cells of `raw`, rooted at the first cell; every
        other cell keeps the default predecessor `(0,0)`. The last cell is
        visited whenever `raw` is a walk or starts where it ends. The search
        runs layer by layer, so a visited cell's depth is the least number of
        table steps from the first cell through cells of `raw`. */
    method BreadthFirst(raw: seq<Cell>) returns (before: array2<Cell>, ghost hops: map<Cell, nat>)
      requires |raw| >= 1
      requires forall k :: 0 <= k < |raw| ==> InGrid(raw[k], resolution)
      ensures before.Length0 == resolution && before.Length1 == resolution
      ensures SearchTree(before, hops, raw[0])
      ensures forall c :: c in hops ==> c in raw
      ensures forall c :: InGrid(c, resolution) && c !in hops ==> before[c.x, c.y] == Cell(0, 0)
      ensures forall c :: InGrid(c, resolution) && before[c.x, c.y] == c ==> c == raw[0] || c == Cell(0, 0)
      ensures IsWalk(raw) || raw[0] == raw[|raw| - 1] ==> raw[|raw| - 1] in hops
      ensures hops[raw[0]] == 0
      ensures forall w :: WalkWithin(w, raw[0], Elements(raw)) && w[|w| - 1] in hops ==> hops[w[|w| - 1]] <= |w| - 1
    {
      var res := resolution;
      var mapToSearch := MarkRoute(raw);
      ghost var allowed := Elements(raw);
      var start := raw[0];
      var end := raw[|raw| - 1];
      var visited;
      ghost var bm;
      visited, before, bm := NewSweep(start, allowed);
      var queue;
      queue, bm, hops := SweepQueue(end, mapToSearch, visited, before, [start], start, allowed, bm, map[start := 0]);
      SweepOutcome(before, raw, res, bm, hops, queue);
      forall w | WalkWithin(w, start, allowed) && w[|w| - 1] in hops
        ensures hops[w[|w| - 1]] <= |w| - 1
      {
        LayeredBound(start, res, allowed, hops, queue, w);
      }
    }

    /** `FindFinalPath` (lines 359-407): a breadth-first search from the
        first cell of `raw` to its last, through the cells of `raw` only,
        followed by `Backtrack` over its predecessor grid. When `raw` is a
        table walk between two different cells the result is a walk between
        the same two cells, made of cells of `raw`, without repeats and no
        longer than `raw` or than any other table walk between the two cells
        through cells of `raw`; when `raw` starts where it ends the result is
        that cell twice. Whatever `raw` is, the result ends at `raw`'s last cell
        and starts at its first cell or at `(0,0)`, the default predecessor
        of a cell the search never reached. */
    method FindFinalPath(raw: seq<Cell>) returns (path: seq<Cell>)
      requires |raw| >= 1
      requires forall k :: 0 <= k < |raw| ==> InGrid(raw[k], resolution)
      ensures |path| >= 2 && path[|path| - 1] == raw[|raw| - 1]
      ensures path[0] == raw[0] || path[0] == Cell(0, 0)
      ensures raw[0] == raw[|raw| - 1] ==> path == [raw[0], raw[0]]
      ensures IsWalk(raw) && raw[0] != raw[|raw| - 1] ==>
        path[0] == raw[0] && IsWalk(path) && Distinct(path) &&
        (forall k :: 0 <= k < |path| ==> path[k] in raw) && |path| <= |raw|
      ensures IsWalk(raw) && raw[0] != raw[|raw| - 1] ==>
        forall w :: WalkWithin(w, raw[0], Elements(raw)) && w[|w| - 1] == raw[|raw| - 1] ==> |path| <= |w|
    {
      var before, hops := BreadthFirst(raw);
      var start := raw[0];
      var end := raw[|raw| - 1];
      SweepIsRanked(before, start, resolution, hops);
      ghost var rank := SweepRank(resolution, hops);
      path := Backtrack(start, end, before, rank);
      assert path[0] in rank && InGrid(path[0], resolution);
      if IsWalk(raw) && start != end {
        TreeRoute(before, hops, start, rank, path);
        DistinctWithinIsShorter(path, raw);
      }
    }

    /** The cost search and its back-walk, `Backtrack(start, end,
        Dijkstra(start, end))` (lines 278-280): for a target inside the grid,
        a route of grid cells from `start` to `end` that is a walk of the
        table without repeats, or `end` twice when the two cells coincide. */
    method CheapestRoute(start: Cell, end: Cell) returns (route: seq<Cell>)
      requires InGrid(start, resolution) && InGrid(end, resolution)
      modifies this`colors
      ensures |route| >= 2 && route[0] == start && route[|route| - 1] == end
      ensures forall k :: 0 <= k < |route| ==> InGrid(route[k], resolution)
      ensures start == end ==> route == [end, end]
      ensures start != end ==> IsWalk(route) && Distinct(route)
    {
      var before, hops, order := Dijkstra(start, end);
      assert order[|order| - 1] in order;
      assert end in hops;
      TreeIsRanked(before, hops, start);
      route := Backtrack(start, end, before, hops);
      if start != end {
        TreeRoute(before, hops, start, hops, route);
      }
    }

    /** `FindPath` (lines 272-287): the route from the highest peak to the
        centre cell `(resolution/2, resolution/2)`, found by the cost search
        and its back-walk (`raw`) and then shortened inside the cells of
        `raw`. It starts at the highest peak and ends at the centre; unless
        the two coincide (the route is then that cell twice), both `raw` and
        the result are walks of the table without repeats, and the result
        uses only cells of `raw` and is a shortest table walk between its
        ends through cells of `raw`. */
    method FindPath() returns (path: seq<Cell>, ghost raw: seq<Cell>)
      requires Valid() && resolution >= 1
      modifies this`colors
      ensures |path| >= 2 && IsHighestPeak(path[0])
      ensures path[|path| - 1] == Cell(resolution / 2, resolution / 2)
      ensures |raw| >= 2 && raw[0] == path[0] && raw[|raw| - 1] == path[|path| - 1]
      ensures path[0] == path[|path| - 1] ==> path == [path[0], path[0]]
      ensures path[0] != path[|path| - 1] ==>
        IsWalk(raw) && Distinct(raw) && IsWalk(path) && Distinct(path) &&
        (forall k :: 0 <= k < |path| ==> path[k] in raw) && |path| <= |raw|
      ensures path[0] != path[|path| - 1] ==>
        forall w :: WalkWithin(w, path[0], Elements(raw)) && w[|w| - 1] == path[|path| - 1] ==> |path| <= |w|
    {
      var end := Cell(resolution / 2, resolution / 2);
      var start := FindHighestPeak();
      var route := CheapestRoute(start, end);
      path := FindFinalPath(route);
      raw := route;
    }
  }
}
