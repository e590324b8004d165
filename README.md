# Climber Simulator route finding, modelled in Dafny

This project models the route-finding core of a Unity terrain generator for a
mountain-climbing game and proves properties of that model. The core has four
parts.

- **The terrain route search** (`Assets/Script/Terrain/TerrainMapGenerator.cs`):
  - a priority-queue search from the highest peak to the centre of the
    heightmap. It uses a hand-written table of eight grid offsets, a
    Walk/Climb/Blocked colouring and steepness-scaled priorities;
  - a back-walk over the predecessor array the search leaves;
  - a breadth-first shortening of that route inside its own cells;
  - the highest and lowest peak scans;
  - the camp picker, which scores spaced walkable route points by the
    steepness of a window around them and takes the lowest scores.

  Modules `Grid`, `MinQueue`, `RouteCost`, `RouteTree`, `RouteSweep` and
  `RouteSearch`.
- **A\*** (`Assets/Script/Pathfinding.cs`):
  - search nodes with `G`, `H` and a parent link;
  - an open list kept sorted by `F = G + H`;
  - eight king moves, Manhattan distance as the heuristic;
  - the walk retraced from the goal.

  Module `AStar`.
- **The climbing-route driver** (`Assets/Script/TerrainMapGenerator.cs`):
  - a walkable grid drawn from the terrain's steepness;
  - the highest sample of the height map chosen as the target;
  - A\* run from the centre of the map to it;
  - the octave clamp of `OnValidate`.

  Module `HighestPointPath`.
- **The mesh builders** (`Assets/Script/MeshMapGenerator.cs` and
  `Assets/Script/MapGenerator.cs`): one vertex per sample, two triangles per
  grid square, and per-vertex colours chosen by height bands. Module
  `MeshGrid`.

Some things are supplied to the model as plain functions:
- terrain steepness and heights;
- the noise behind them;
- the conversion of a grid cell to a world position.

Objects whose fields the source updates in place are classes: the generators,
the A\* open list, and the predecessor, visited, distance and colour grids
(which are `array2`s). Pure computations are functions, and the invariants the
loops keep are ghost predicates with lemmas about them.

## Model

| member | source | states |
|---|---|---|
| Grid.CsHalf | Assets/Script/Terrain/TerrainMapGenerator.cs:540 | `campSize/2` truncates toward zero: for a non-negative size, twice the quotient is at most the size and at least the size minus one; for a negative size the bounds mirror that |
| Grid.Truncate | Assets/Script/Terrain/TerrainMapGenerator.cs:548 | the `(int)` cast of a steepness rounds toward zero: it lies within one of the value, on the side of zero |
| Grid.Reversed | Assets/Script/Terrain/TerrainMapGenerator.cs:427 | `path.Reverse()`: same length, element `k` is element `len-1-k` of the input |
| Grid.ClampOctaves | Assets/Script/MeshMapGenerator.cs:141 | the clamped octave count is exactly 1 when the old count was zero or negative and equals the old count when that was positive |
| MinQueue.MinIndex | Assets/Script/Terrain/TerrainMapGenerator.cs:307 | `Dequeue` takes an entry whose priority is no greater than any other, and every entry before it has a strictly greater priority |
| MinQueue.RemoveAt | Assets/Script/Terrain/TerrainMapGenerator.cs:307 | removing the dequeued entry leaves exactly the other entries: one shorter, and the multiset plus the taken entry is the old multiset |
| RouteCost.DirectionTableShape | Assets/Script/Terrain/TerrainMapGenerator.cs:71-82 | the table has 8 entries; entries 4 and 6 are both `(-1,-1)`; `(-1,1)` and `(0,0)` are missing; every entry has Chebyshev length 1; all four axis moves are present |
| RouteCost.StepIsKingMove | Assets/Script/Terrain/TerrainMapGenerator.cs:322 | a step through the table moves to a different cell one king move away |
| RouteCost.Classify | Assets/Script/Terrain/TerrainMapGenerator.cs:334-347 | with ordered thresholds: up to `maxWalkable` gives colour 0 and `dist+base`; up to `maxClimbable` gives colour 1 and adds `priorityWalk`; beyond gives colour 2 and adds `priorityClimb` too. For any thresholds, colour 2 holds exactly when the cell is steeper than `maxClimbable` |
| RouteCost.ScaledPriority | Assets/Script/Terrain/TerrainMapGenerator.cs:349 | flat ground scales the priority to 0; for ground up to 90 degrees, a non-negative priority scales into `[0, priority]` |
| RouteCost.WalkableFromEndWithin | Assets/Script/Terrain/TerrainMapGenerator.cs:511-516 | every point the camp loop considers lies on the path and is no steeper than `maxWalkableSteepness` |
| RouteCost.AreaScoreIsLocal | Assets/Script/Terrain/TerrainMapGenerator.cs:536-553 | a camp score depends only on the truncated steepness inside the half-open window `[-(campSize/2), campSize/2)²` around the point |
| RouteCost.AreaScoreBounds | Assets/Script/Terrain/TerrainMapGenerator.cs:536-553 | with steepness in `[0,90]` a score lies in `[0, 90·(2h)²]` for `h = campSize/2`; a negative `campSize` gives 0 |
| RouteTree.GridConnected | Assets/Script/Terrain/TerrainMapGenerator.cs:320-329 | the table's offsets connect the grid: a set of grid cells closed under table steps that holds one cell holds them all |
| RouteTree.WalkStaysInside | Assets/Script/Terrain/TerrainMapGenerator.cs:387-403 | a table walk over allowed grid cells that starts in a set closed under such steps never leaves it |
| RouteTree.TreeIsRanked | Assets/Script/Terrain/TerrainMapGenerator.cs:301-314 | in a search tree the predecessor chains strictly descend in hop count, and the only visited fixed point of `before` is `start` |
| RouteTree.FrontierStart | Assets/Script/Terrain/TerrainMapGenerator.cs:301-305 | the initial state, with `before[start] = start` and a queue holding only `start`, satisfies the search invariant |
| RouteTree.FrontierSkip | Assets/Script/Terrain/TerrainMapGenerator.cs:307-310 | dropping a stale entry for a visited cell keeps the search invariant |
| RouteTree.FrontierVisitTree | Assets/Script/Terrain/TerrainMapGenerator.cs:312-314 | visiting a dequeued cell adds it to the tree with a distance one more than its predecessor's (`start` gets 1); the visiting order stays repetition-free and starts at `start` |
| RouteTree.RelaxKeepsTree | Assets/Script/Terrain/TerrainMapGenerator.cs:336 | redirecting unvisited neighbours to the cell being expanded keeps the predecessor map a tree over the visited cells |
| RouteTree.RelaxKeepsQueue | Assets/Script/Terrain/TerrainMapGenerator.cs:320-352 | after relaxation every queued cell is on the grid, and (unless it is `start`) its predecessor is visited and one table step away |
| RouteTree.RelaxKeepsClosure | Assets/Script/Terrain/TerrainMapGenerator.cs:320-352 | after relaxation every grid neighbour of a visited cell is visited or queued |
| RouteTree.FrontierVisit | Assets/Script/Terrain/TerrainMapGenerator.cs:306-354 | one visit-and-relax round keeps the whole search invariant |
| RouteTree.FrontierDone | Assets/Script/Terrain/TerrainMapGenerator.cs:306-356 | when the queue empties every grid cell has been visited, so a target the search did not stop at lies outside the grid |
| RouteTree.RedirectIsRelaxed | Assets/Script/Terrain/TerrainMapGenerator.cs:336 | the predecessor update of one relaxation sets `before` to the expanded cell exactly on the fresh neighbours it enqueues |
| RouteTree.MirrorsRedirect | Assets/Script/Terrain/TerrainMapGenerator.cs:336 | when the predecessor grid holds the expanded cell exactly on the cells a relaxation enqueued and the old predecessor elsewhere, it mirrors the redirected predecessor map |
| RouteTree.TreeOfArray | Assets/Script/Terrain/TerrainMapGenerator.cs:297 | a predecessor array that agrees with the tree map on the grid is a search tree |
| RouteTree.TreeChain | Assets/Script/Terrain/TerrainMapGenerator.cs:419-425 | along a back-walk every cell is in the tree, one hop below the next and one table step from it |
| RouteTree.TreeRoute | Assets/Script/Terrain/TerrainMapGenerator.cs:409-430 | a back-walk from a tree cell other than the root starts at `start`, is a table walk, repeats no cell, stays in the tree, and has one cell more than the depth difference between its ends |
| RouteSweep.SpreadingIsFreshNeighbours | Assets/Script/Terrain/TerrainMapGenerator.cs:387-403 | one expansion enqueues distinct, unvisited, allowed grid cells one step away, and every such cell an offset reaches |
| RouteSweep.SpreadingExpands | Assets/Script/Terrain/TerrainMapGenerator.cs:387-403 | the full expansion of a point enqueues exactly its fresh allowed neighbours, each once |
| RouteSweep.SweepStart | Assets/Script/Terrain/TerrainMapGenerator.cs:369-376 | the start of the breadth-first search (only `start` visited and queued at depth 0, every other predecessor `(0,0)`) satisfies the search invariant and the layering |
| RouteSweep.AdoptKeepsTree | Assets/Script/Terrain/TerrainMapGenerator.cs:400-402 | fresh neighbours join the tree as children of the expanded point, one level below it |
| RouteSweep.SpreadKeepsClosed | Assets/Script/Terrain/TerrainMapGenerator.cs:387-403 | once a point is expanded, every allowed grid neighbour of a visited cell that has left the queue is visited |
| RouteSweep.SweepStep | Assets/Script/Terrain/TerrainMapGenerator.cs:378-404 | dequeuing the head and enqueuing its expansion keeps the search invariant, and the visited set grows by exactly the new cells |
| RouteSweep.LayeredQueue | Assets/Script/Terrain/TerrainMapGenerator.cs:380-402 | after a dequeue and the enqueueing of fresh neighbours one level below the old head, the queue still runs in nondecreasing depth within one level of the old head |
| RouteSweep.LayeredDone | Assets/Script/Terrain/TerrainMapGenerator.cs:380-402 | after such a round every visited cell off the queue is no deeper than the new head |
| RouteSweep.LayeredEdges | Assets/Script/Terrain/TerrainMapGenerator.cs:387-402 | after such a round the allowed grid neighbours of every visited cell off the queue, the dequeued cell included, are visited at most one level below it |
| RouteSweep.LayeredStep | Assets/Script/Terrain/TerrainMapGenerator.cs:378-404 | one round of the queue loop keeps the breadth-first layering |
| RouteSweep.LayeredPrefix | Assets/Script/Terrain/TerrainMapGenerator.cs:378-404 | along a walk from `start` through allowed cells, a cell whose predecessors on the walk have all left the queue is visited no deeper than its position |
| RouteSweep.LayeredBound | Assets/Script/Terrain/TerrainMapGenerator.cs:378-404 | under the layering no walk from `start` through allowed cells reaches a visited cell in fewer steps than its depth |
| RouteSweep.SweepProgress | Assets/Script/Terrain/TerrainMapGenerator.cs:378-404 | an expansion that enqueues something visits a new grid cell; one that enqueues nothing leaves the visited set unchanged |
| RouteSweep.SweepReaches | Assets/Script/Terrain/TerrainMapGenerator.cs:378-404 | once the queue is empty, every cell of a table walk from `start` through allowed grid cells has been visited |
| RouteSweep.SweepArray | Assets/Script/Terrain/TerrainMapGenerator.cs:362-373 | the predecessor array is a search tree; unvisited cells keep `(0,0)`; the only fixed points are `start` and, when unvisited, `(0,0)` |
| RouteSweep.SweepOutcome | Assets/Script/Terrain/TerrainMapGenerator.cs:378-406 | after the search the tree lies within the route's cells, and the route's last cell is reached whenever the route is a table walk or begins where it ends |
| RouteSweep.SweepIsRanked | Assets/Script/Terrain/TerrainMapGenerator.cs:409-430 | the breadth-first depths extend to a ranking of the whole predecessor grid, so the back-walk over it terminates |
| RouteSearch.TerrainMapGenerator.constructor | Assets/Script/Terrain/TerrainMapGenerator.cs:50-68 | the heightmap, steepness sampler, preset and camp settings are stored over a `resolution×resolution` heightmap |
| RouteSearch.TerrainMapGenerator.FindHighestPeak | Assets/Script/Terrain/TerrainMapGenerator.cs:432-459 | result in swapped `(y, x)` order: `(0,0)` if every height is below -1; otherwise a grid cell of the greatest height, after which no cell in scan order has that height (the last maximal cell) |
| RouteSearch.TerrainMapGenerator.FindLowestPeak | Assets/Script/Terrain/TerrainMapGenerator.cs:461-488 | the random pick's candidate list holds exactly the cells of least height; the result is one of them, or `(0,0)` with an empty list when every height exceeds 2 |
| RouteSearch.TerrainMapGenerator.CheckAreaCampCriteria | Assets/Script/Terrain/TerrainMapGenerator.cs:536-553 | the result is the truncated steepness summed over the camp window around the point |
| RouteSearch.TerrainMapGenerator.CampSkip | Assets/Script/Terrain/TerrainMapGenerator.cs:517-518 | a walkable point met too soon after the last candidate only advances the distance counter |
| RouteSearch.TerrainMapGenerator.CampTake | Assets/Script/Terrain/TerrainMapGenerator.cs:518-523 | a walkable point far enough from the last candidate is enqueued with its score and resets the counter |
| RouteSearch.TerrainMapGenerator.CampScanDone | Assets/Script/Terrain/TerrainMapGenerator.cs:511-524 | the finished scan yields the candidates: every `Spacing`-th walkable point counted from the path's end, starting with the first, each with its score |
| RouteSearch.TerrainMapGenerator.CollectCampCandidates | Assets/Script/Terrain/TerrainMapGenerator.cs:508-524 | the candidate queue is exactly the spaced, scored walkable points of the path |
| RouteSearch.TerrainMapGenerator.FindCampsLocation | Assets/Script/Terrain/TerrainMapGenerator.cs:506-534 | `campCount` drops to the number of candidates when larger. That many camps come out in ascending score order, drawn from the candidates, and none scores above a candidate left behind |
| RouteSearch.TerrainMapGenerator.ChooseCamps | Assets/Script/Terrain/TerrainMapGenerator.cs:526-532 | dequeuing `count` candidates yields them lowest score first, as a sub-multiset of the candidates |
| RouteSearch.TerrainMapGenerator.DequeueStep | Assets/Script/Terrain/TerrainMapGenerator.cs:531 | taking a least-priority entry keeps the chosen entries sorted and no worse than any left |
| RouteSearch.TerrainMapGenerator.DequeuedRest | Assets/Script/Terrain/TerrainMapGenerator.cs:529-532 | the chosen entries are a sub-multiset of the candidates, and each scores no more than any candidate left |
| RouteSearch.TerrainMapGenerator.Backtrack | Assets/Script/Terrain/TerrainMapGenerator.cs:409-430 | the route ends at `end` and starts at a fixed point of `before`; each cell is the predecessor of the next, with ranks strictly rising. `end` is its own predecessor exactly when the route is `[end, end]` |
| RouteSearch.TerrainMapGenerator.BackChainStart | Assets/Script/Terrain/TerrainMapGenerator.cs:411-417 | the list starts as `end` followed by its predecessor |
| RouteSearch.TerrainMapGenerator.BackChainExtend | Assets/Script/Terrain/TerrainMapGenerator.cs:419-425 | each added predecessor has a strictly smaller rank, so the do-while loop ends |
| RouteSearch.TerrainMapGenerator.BackChainReversed | Assets/Script/Terrain/TerrainMapGenerator.cs:425-429 | reversing the finished chain gives a route from a fixed point to `end` along predecessor links |
| RouteSearch.TerrainMapGenerator.ExpansionIsFreshNeighbours | Assets/Script/Terrain/TerrainMapGenerator.cs:320-353 | the relaxation enqueues only unvisited grid cells one table step away, each with its classified priority and colour, and every one the offsets reach |
| RouteSearch.TerrainMapGenerator.Relax | Assets/Script/Terrain/TerrainMapGenerator.cs:320-353 | the queue grows by the expansion; `before` becomes the expanded cell on exactly the fresh neighbours and is unchanged elsewhere |
| RouteSearch.TerrainMapGenerator.ExpansionCoversFresh | Assets/Script/Terrain/TerrainMapGenerator.cs:320-353 | a cell is enqueued by the full relaxation exactly when it is a fresh table step from the expanded cell |
| RouteSearch.TerrainMapGenerator.Settle | Assets/Script/Terrain/TerrainMapGenerator.cs:312-314 | the visited cell gets the colour of its entry and a distance one more than its predecessor's (1 for `start`); the visited set grows by that cell |
| RouteSearch.TerrainMapGenerator.Explore | Assets/Script/Terrain/TerrainMapGenerator.cs:306-354 | one visit keeps the search invariant, or, at `end`, leaves a finished tree and visiting order |
| RouteSearch.TerrainMapGenerator.FrontierRelaxed | Assets/Script/Terrain/TerrainMapGenerator.cs:306-354 | removing a fresh entry other than `end`, settling its cell and appending its expansion keeps the search invariant and the classification colours of the queued entries |
| RouteSearch.TerrainMapGenerator.NewSearch | Assets/Script/Terrain/TerrainMapGenerator.cs:294-305 | fresh grids, nothing visited, `start` its own predecessor |
| RouteSearch.TerrainMapGenerator.Dijkstra | Assets/Script/Terrain/TerrainMapGenerator.cs:292-357 | the predecessor grid is a tree rooted at `start` over the visited cells, each visited once with distance = hop count + 1. The search stops at `end` when it is on the grid and otherwise visits every cell. Colours are those of the classification, 0 elsewhere |
| RouteSearch.TerrainMapGenerator.Search | Assets/Script/Terrain/TerrainMapGenerator.cs:306-356 | the main loop ends with the finished search state |
| RouteSearch.TerrainMapGenerator.SearchExhausted | Assets/Script/Terrain/TerrainMapGenerator.cs:356 | an emptied queue leaves the whole grid visited and the finished search state |
| RouteSearch.TerrainMapGenerator.VisitNext | Assets/Script/Terrain/TerrainMapGenerator.cs:307-354 | one loop turn either finishes at `end` or keeps the invariant; it visits a new cell, or visits none and shortens the queue |
| RouteSearch.TerrainMapGenerator.Spread | Assets/Script/Terrain/TerrainMapGenerator.cs:387-403 | exactly the fresh neighbours on the first route are marked visited and take the point as predecessor, in the order they are enqueued |
| RouteSearch.TerrainMapGenerator.MarkRoute | Assets/Script/Terrain/TerrainMapGenerator.cs:361-367 | the flag grid is set exactly on the cells of the route |
| RouteSearch.TerrainMapGenerator.NewSweep | Assets/Script/Terrain/TerrainMapGenerator.cs:360-376 | only `start` is visited and it is its own predecessor; the breadth-first invariant holds |
| RouteSearch.TerrainMapGenerator.Widen | Assets/Script/Terrain/TerrainMapGenerator.cs:380-403 | one round keeps the breadth-first invariant and either reaches a new cell or shortens the queue |
| RouteSearch.TerrainMapGenerator.SweepQueue | Assets/Script/Terrain/TerrainMapGenerator.cs:378-404 | the loop stops with an empty queue or with `end` at its head |
| RouteSearch.TerrainMapGenerator.BreadthFirst | Assets/Script/Terrain/TerrainMapGenerator.cs:359-404 | the predecessor grid is a tree rooted at the route's first cell, at depth 0, over cells of the route; other cells keep `(0,0)`; the last cell is reached when the route is a walk or closed; no table walk from the first cell through the route's cells reaches a visited cell in fewer steps than its depth |
| RouteSearch.TerrainMapGenerator.FindFinalPath | Assets/Script/Terrain/TerrainMapGenerator.cs:359-407 | the result ends at the route's last cell. For a table walk between two different cells it is a repetition-free walk between the same cells, made of the route's cells and no longer than the route or than any table walk between those cells through the route's cells; a closed route gives that cell twice |
| RouteSearch.TerrainMapGenerator.CheapestRoute | Assets/Script/Terrain/TerrainMapGenerator.cs:278-280 | for two grid cells the back-walk of the cost search runs from `start` to `end` as a repetition-free table walk, or is `[end, end]` when they coincide |
| RouteSearch.TerrainMapGenerator.FindPath | Assets/Script/Terrain/TerrainMapGenerator.cs:272-287 | the route starts at the highest peak and ends at the centre `(res/2, res/2)`. Unless those coincide, both the first route and the shortened one are repetition-free table walks, and the shortened one uses only cells of the first and is a shortest table walk between its ends through them |
| AStar.MovesAreKingMoves | Assets/Script/Pathfinding.cs:90-100 | the move table holds the eight king moves, each once |
| AStar.GetHeuristic | Assets/Script/Pathfinding.cs:74-77 | the Manhattan distance is zero exactly on equal cells and lies between one and two times the king-move distance |
| AStar.HeuristicOverestimatesDiagonals | Assets/Script/Pathfinding.cs:74-77 | one diagonal move away the heuristic is 2, more than the true cost 1 |
| AStar.SortedFrontIsLeast | Assets/Script/Pathfinding.cs:150-157 | in a list sorted by `F` the front has the least `F` |
| AStar.InsertByF | Assets/Script/Pathfinding.cs:144-148 | adding an item to a sorted list gives a sorted list with exactly one more copy of the item |
| AStar.SortByF | Assets/Script/Pathfinding.cs:159-162 | the list is sorted by `F` and a permutation of its input |
| AStar.NodeQueue.Enqueue | Assets/Script/Pathfinding.cs:144-148 | the list gains exactly the item, keeps every old element, and ends sorted by `F` |
| AStar.NodeQueue.Dequeue | Assets/Script/Pathfinding.cs:150-157 | an empty queue gives `EmptyQueue` and stays empty. Otherwise the front is taken and the rest remains; from a sorted list the taken item has the least `F` and the rest stays sorted |
| AStar.NodeQueue.UpdatePriority | Assets/Script/Pathfinding.cs:159-162 | the list is re-sorted by the current `F` values with the same elements |
| AStar.Pathfinding.constructor | Assets/Script/Pathfinding.cs:9-14 | width and height are the grid's two dimensions |
| AStar.Pathfinding.IsWalkable | Assets/Script/Pathfinding.cs:79-84 | a cell is walkable exactly when it is on the grid and its flag is set |
| AStar.Pathfinding.GetNeighbors | Assets/Script/Pathfinding.cs:86-112 | exactly the on-grid cells one king move away, each once, at most eight, in the order of the move table |
| AStar.StepsInRectMembers | Assets/Script/Pathfinding.cs:102-109 | a cell is listed if and only if it is on the grid and one of the table's moves from `pos` |
| AStar.StepsInRectDistinct | Assets/Script/Pathfinding.cs:102-109 | no more cells are listed than there are moves, and none twice when the moves differ |
| AStar.Pathfinding.FindPath | Assets/Script/Pathfinding.cs:16-58 | a result is a repetition-free walk of king moves from `start` to `target` over walkable cells (`start` excepted), or `[start]` when the two coincide. `null` comes only when no such walk exists |
| AStar.Pathfinding.Step | Assets/Script/Pathfinding.cs:27-32 | the node of least `F` leaves the open list; at the target the retraced walk is returned, otherwise expansion keeps the search invariant and either adds a node or shortens the list |
| AStar.Pathfinding.Expand | Assets/Script/Pathfinding.cs:32-54 | after the neighbour loop every walkable neighbour of the expanded cell has a node; the tree, the open-list bookkeeping and its order are kept; the list grows by exactly the new nodes |
| AStar.Pathfinding.Visit | Assets/Script/Pathfinding.cs:34-53 | a blocked neighbour changes nothing; a walkable one ends up with a node, and only a first visit adds a node and a queue entry |
| AStar.Pathfinding.NeighborsCovered | Assets/Script/Pathfinding.cs:32-35 | once each listed walkable neighbour has a node, every walkable king move out of the cell leads to a node |
| AStar.Pathfinding.ClosedAfterExpansion | Assets/Script/Pathfinding.cs:32-54 | the expanded cell joins the cells all of whose walkable neighbours have nodes |
| AStar.Pathfinding.RouteStaysInside | Assets/Script/Pathfinding.cs:25-55 | a walk from `start` cannot leave a set of cells closed under walkable king moves |
| AStar.Pathfinding.NoRouteOut | Assets/Script/Pathfinding.cs:57-58 | when the open list runs dry before the target is expanded, no walk from `start` reaches the target |
| AStar.Pathfinding.RetracePath | Assets/Script/Pathfinding.cs:61-72 | the result is the parent chain of the end node read from the start: a repetition-free walk from `start` that ends at the node's cell |
| AStar.Pathfinding.RouteOfChain | Assets/Script/Pathfinding.cs:61-72 | a parent chain read from the start is a repetition-free walk over walkable cells ending at its cell |
| AStar.Relax | Assets/Script/Pathfinding.cs:37-53 | only the neighbour's node changes; its `G` becomes at most one more than the current node's. A known node keeps its `G` or takes that lower value; a new node gets the heuristic to the target and one queue entry |
| AStar.Improve | Assets/Script/Pathfinding.cs:41-46 | the neighbour's node takes `G = current.G + 1` and the current node as parent; the list keeps its length and is re-sorted |
| AStar.Discover | Assets/Script/Pathfinding.cs:48-53 | a new node with `G = current.G + 1`, the heuristic and the current node as parent is filed and queued, and the list stays sorted |
| AStar.TreeCost | Assets/Script/Pathfinding.cs:21 | every node's `G` is non-negative |
| AStar.TreeExtend | Assets/Script/Pathfinding.cs:48-53 | a new node one step below a filed node keeps the nodes a tree rooted at the start |
| AStar.TreeRedirect | Assets/Script/Pathfinding.cs:41-46 | moving a node under a cheaper parent keeps the nodes a tree rooted at the start |
| AStar.ChainFacts | Assets/Script/Pathfinding.cs:64-69 | following parents from a node reaches the start's node, through adjacent cells with falling `G`, without repeating a cell |
| AStar.ChainIsRoute | Assets/Script/Pathfinding.cs:61-72 | the reversed chain starts at `start`, ends at the node's cell, moves by king moves and repeats no cell |
| AStar.SingleCellRoute | Assets/Script/Pathfinding.cs:29-30 | a repetition-free walk from a cell back to itself is that cell alone |
| HighestPointPath.ScanMaxUnique | Assets/Script/TerrainMapGenerator.cs:295-309 | the scan's outcome is determined by the height map: two outcomes meeting its description are the same cell and height |
| HighestPointPath.TerrainMapGenerator.constructor | Assets/Script/TerrainMapGenerator.cs:17-33 | the defaults: four octaves, paths up to 90 degrees of steepness |
| HighestPointPath.TerrainMapGenerator.OnValidate | Assets/Script/TerrainMapGenerator.cs:347-349 | the new octave count is `ClampOctaves` of the old one: a zero or negative count becomes exactly 1 and a positive count is kept |
| HighestPointPath.TerrainMapGenerator.GenerateWalkableGrid | Assets/Script/TerrainMapGenerator.cs:264-283 | a `res×res` grid indexed `[x, y]` whose cell is true exactly when the steepness there is at most `pathMaxSteepness` |
| HighestPointPath.TerrainMapGenerator.HighestCell | Assets/Script/TerrainMapGenerator.cs:295-309 | the height is the larger of `float.MinValue` and every sample. If some sample beats `float.MinValue`, the cell is the first of that height in `y`-major order with every earlier sample strictly lower; otherwise it is `(0,0)` |
| HighestPointPath.TerrainMapGenerator.FindHighestPoint | Assets/Script/TerrainMapGenerator.cs:221-244 | the same scan: the first highest cell and its height |
| HighestPointPath.TerrainMapGenerator.FindPathFromCenterToHighestPoint | Assets/Script/TerrainMapGenerator.cs:287-346 | the search runs from `(res/2, res/2)` to the scan's highest cell. `null` comes exactly when no walk over cells no steeper than `pathMaxSteepness` reaches it; otherwise the result has one world point per cell of such a repetition-free walk, in order (the target and the walk are also returned) |
| HighestPointPath.TerrainMapGenerator.ClimbsAreRoutes | Assets/Script/TerrainMapGenerator.cs:312-316 | over the generated grid, the walks A\* accepts are exactly the walks over cells no steeper than `pathMaxSteepness` |
| MeshGrid.VertexLayout | Assets/Script/MeshMapGenerator.cs:61-66 | the vertex list has `w·h` entries, and the vertex of sample `(x, y)` sits at index `y·w + x` |
| MeshGrid.TriangleCount | Assets/Script/MeshMapGenerator.cs:68-77 | with `w, h ≥ 1` the loop emits `6(w-1)(h-1)` indices, each naming a vertex in `[0, w·h)` |
| MeshGrid.QuadLayout | Assets/Script/MeshMapGenerator.cs:68-77 | the six indices of the square at `(x, y)`, with `i = y·w + x`, are `(i+w, i+w+1, i)` then `(i+1, i, i+w+1)`, squares taken row by row |
| MeshGrid.ThinMeshHasNoTriangles | Assets/Script/MeshMapGenerator.cs:68 | a mesh one sample wide or high has no triangles |
| MeshGrid.BandIsLastMatch | Assets/Script/MeshMapGenerator.cs:79-85 | a vertex takes the colour of the last region whose limit exceeds its height, and keeps its old colour when there is none |
| MeshGrid.ColourLayout | Assets/Script/MeshMapGenerator.cs:79-85 | `colors[y·w + x]` is the colour of the last region above sample `(x, y)`'s height, or the clear colour |
| MeshGrid.PaintVertex | Assets/Script/MeshMapGenerator.cs:79-85 | only `colors[i]` changes, to the band colour over its old value |
| MeshGrid.PaintSample | Assets/Script/MeshMapGenerator.cs:79-85 | painting one sample extends the painted prefix of the colour array by that sample's band colour and changes no other slot |
| MeshGrid.BuildRow | Assets/Script/MeshMapGenerator.cs:63-88 | one row appends its vertices and squares and paints its colours, leaving later slots clear |
| MeshGrid.BuildMesh | Assets/Script/MeshMapGenerator.cs:61-89 | the vertex, triangle and colour lists end up as the row-major layouts above; with a negative size every colour stays clear |
| MeshGrid.MeshMapGenerator.Generate | Assets/Script/MeshMapGenerator.cs:50-90 | a negative `mapWidth·mapHeight` throws after the lists are emptied; otherwise the lists and a fresh colour array hold the mesh, all colours clear when a size is negative |
| MeshGrid.MeshMapGenerator.OnValidate | Assets/Script/MeshMapGenerator.cs:139-141 | the new octave count is `ClampOctaves` of the old one: a zero or negative count becomes exactly 1 and a positive count is kept |
| MeshGrid.MeshMapGenerator.constructor | Assets/Script/MeshMapGenerator.cs:7-25 | the inspector settings are stored and the mesh lists start empty |
| MeshGrid.MapGenerator.constructor | Assets/Script/MapGenerator.cs:12-23 | the inspector settings are stored and the mesh lists start empty |
| MeshGrid.MapGenerator.Generate | Assets/Script/MapGenerator.cs:46-81 | as `MeshMapGenerator.Generate`, over this generator's own height sampler |

## Left out

- Noise and falloff are not modelled: `RidgedPerlinNoise`, `GetFalloffValue`, `GetNormalizedDistanceFromCenter` and both `GetHeight`s are float arithmetic over `Mathf.PerlinNoise`, a foreign call. Heights and steepness are supplied as functions or arrays of reals.
- `ApplyTextures`, `GenerateHeightMap`, `GetHeightMap`, `UpdateMesh`, `Start`, `InitializeMap`, the debug drawing and prefab instantiation are not modelled; they are Unity scene, texture and mesh calls.
- Float rounding is not modelled. Heights, steepness, A\*'s `G`/`H` and the priority scaling at line 349 are exact reals or integers. A\*'s costs are whole numbers in the source, so `int` is exact there.
- The `Debug.LogWarning("No path found!")` of `FindPathFromCenterToHighestPoint` (`Assets/Script/TerrainMapGenerator.cs` line 343) is console output and is not modelled; the `null` result it accompanies is.
- Only the octave clamp of the `OnValidate`s is modelled. The regeneration that follows it is Unity editor behaviour and is not modelled: `Generate` in play mode in `Assets/Script/TerrainMapGenerator.cs` (lines 350-355), `Generate` and `UpdateMesh` when a mesh exists in `Assets/Script/MeshMapGenerator.cs` (lines 142-146) and `Assets/Script/MapGenerator.cs` (lines 101-107), and `InitializeMap` in `Assets/Script/Terrain/TerrainMapGenerator.cs` (lines 622-627).
- World positions are not modelled: `ConvertPointToWorldPosition` and the `Vector3` arithmetic of `FindPathFromCenterToHighestPoint` become a supplied cell-to-point function.
- HighestPointPath.TerrainMapGenerator.FindHighestPoint: returns the highest cell and its height rather than the world position built from them.
- `System.Random` is not modelled. Its draws are parameters (the mesh offset) or a nondeterministic choice among candidates (the peak scans' pick).
- `Utils.PriorityQueue` is not part of this model. It is modelled as a sequence of entries whose `Dequeue` takes the first entry of least priority; the real tie order is unspecified.
- A\*'s nodes are values: a `Node` record filed by cell in the node map, with the open list holding cells whose `F` is read from that map. The source's in-place writes to `G` and `Parent` of a shared node become map updates. There is exactly one node per cell, so every alias sees the update just as the map does.
- `RetracePath` follows parent links through the node map rather than through object references.
- The start node is filed before it is enqueued, the reverse of the source's order. Nothing observable depends on this.
- `List.Sort` is modelled by insertion into a sorted list. The source's sort is unstable, so equal-`F` nodes may come out in another order; the contracts do not depend on that order.
- The `InvalidOperationException` of an empty `Dequeue` is the `EmptyQueue` result; `FindPath` never dequeues an empty list.
- A\*'s loop body is split into `Step`, `Expand`, `Visit`, `Relax`, `Improve` and `Discover`. The split follows the source's nested branches and changes nothing they do.
- RouteSearch.TerrainMapGenerator.FindPath: requires a resolution of at least 1; on an empty heightmap the source indexes out of range.
- Arrays are allocated by `new` and their integer indices are unbounded; C# 32-bit overflow of `mapWidth * mapHeight`, of priorities and of the camp counters below is not modelled.
- RouteSearch.TerrainMapGenerator.CollectCampCandidates: the counter `distance` is a C# `int` that starts at `campMinimumDistance` (`Assets/Script/Terrain/TerrainMapGenerator.cs` line 510). When `campMinimumDistance` is `int.MaxValue`, the first `distance++` (line 517) wraps to `int.MinValue`, so the test on line 518 skips every walkable point before the 2^32-th one. On any route with fewer walkable points than that, C# collects no candidate. The model counts on unbounded integers and takes the first walkable point, so `IsCampCandidates` does not hold of the C# result for that one value; the loop lemmas reason about the same unbounded counter.
- RouteSearch.TerrainMapGenerator.CampTake: the counter is an unbounded integer. In C#, a `distance` of `int.MaxValue` wraps on `distance++` (line 517) and the point is skipped, where this lemma takes it.
- RouteSearch.TerrainMapGenerator.CampScanDone: states that the first walkable point is a candidate, which fails in C# when `campMinimumDistance` is `int.MaxValue` (the wrap described above).
- RouteSearch.TerrainMapGenerator.FindCampsLocation: inherits the gap above. At `campMinimumDistance == int.MaxValue` C# lowers a positive `campCount` to 0 (line 527) and returns no camp, while the model's `campCount` and camps follow the candidates it collects, the first walkable point among them.
- RouteSearch.TerrainMapGenerator.CheckAreaCampCriteria: the C# sum `result += (int)steepness` (line 548) is a 32-bit `int`; the model sums on unbounded integers, so a window large enough to overflow that sum is scored differently.
- MeshGrid.BuildMesh: the loop counters `x`, `y` and `i` of the mesh loops are C# `float`s (`Assets/Script/MeshMapGenerator.cs` lines 61-63 and 87, `Assets/Script/MapGenerator.cs` lines 52-54 and 78), exact only up to 2^24. The model counts on integers. From 2^24 samples on (a 4097 x 4097 map, say), `i++` no longer changes `i`: every later sample paints slot 2^24, the slots after it stay clear, and the later squares reuse that index. So the row-major colour and triangle layouts are promised only below 2^24 samples in C#. For a width or height above 2^24, `x` or `y` stops growing at 2^24, so the C# loop ends early or never ends, while the model's loop ends after the full count.
- MeshGrid.BuildRow: its index `i + x` is exact; in C# it is the `float` counter described under `MeshGrid.BuildMesh`, wrong from 2^24 samples on.
- MeshGrid.MeshMapGenerator.Generate: inherits the `float` counter gap of `MeshGrid.BuildMesh`.
- MeshGrid.MapGenerator.Generate: inherits the same `float` counter gap, at `Assets/Script/MapGenerator.cs` lines 52-54 and 78.
- `PathfindingPreset.cs` is a plain configuration record here.
