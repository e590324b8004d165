/** A* over a walkable boolean grid (`Pathfinding`): search nodes linked to
    their parents, an open list kept sorted by `F = G + H`, the eight king
    moves, and the walk retraced from the goal back to the start. */
module AStar {
  import opened Grid

  /** The moves `GetNeighbors` tries, in its order: four straight, four diagonal. */
  function PossibleMoves(): seq<Cell>
  {
    [Cell(1, 0), Cell(-1, 0), Cell(0, 1), Cell(0, -1),
     Cell(1, 1), Cell(1, -1), Cell(-1, 1), Cell(-1, -1)]
  }

  /** The cells `pos + moves[k]` that lie on a `width x height` grid, in `k` order. */
  function StepsInRect(pos: Cell, moves: seq<Cell>, width: int, height: int): seq<Cell>
  {
    if |moves| == 0 then []
    else
      var last := pos.Plus(moves[|moves| - 1]);
      StepsInRect(pos, moves[..|moves| - 1], width, height) + (if InRect(last, width, height) then [last] else [])
  }

  /** The in-grid steps are exactly the table's steps that land on the grid. */
  lemma {:induction false} StepsInRectMembers(pos: Cell, moves: seq<Cell>, width: int, height: int)
    ensures forall q :: q in StepsInRect(pos, moves, width, height) <==>
      InRect(q, width, height) && exists k :: 0 <= k < |moves| && q == pos.Plus(moves[k])
  {
    if |moves| > 0 {
      var init := moves[..|moves| - 1];
      StepsInRectMembers(pos, init, width, height);
      forall q
        ensures q in StepsInRect(pos, moves, width, height) <==>
          InRect(q, width, height) && exists k :: 0 <= k < |moves| && q == pos.Plus(moves[k])
      {
        if InRect(q, width, height) && exists k :: 0 <= k < |moves| && q == pos.Plus(moves[k]) {
          var k :| 0 <= k < |moves| && q == pos.Plus(moves[k]);
          if k < |moves| - 1 {
            assert init[k] == moves[k];
          }
        }
        if q in StepsInRect(pos, init, width, height) {
          var k :| 0 <= k < |init| && q == pos.Plus(init[k]);
          assert moves[k] == init[k];
        }
      }
    }
  }

  /** There are no more in-grid steps than moves, and they repeat no cell when
      the moves repeat no offset. */
  lemma {:induction false} StepsInRectDistinct(pos: Cell, moves: seq<Cell>, width: int, height: int)
    ensures |StepsInRect(pos, moves, width, height)| <= |moves|
    ensures Distinct(moves) ==> Distinct(StepsInRect(pos, moves, width, height))
  {
    if |moves| > 0 {
      var init := moves[..|moves| - 1];
      var last := pos.Plus(moves[|moves| - 1]);
      StepsInRectDistinct(pos, init, width, height);
      if Distinct(moves) && InRect(last, width, height) {
        StepsInRectMembers(pos, init, width, height);
        forall k | 0 <= k < |init|
          ensures last != pos.Plus(init[k])
        {
          assert init[k] == moves[k];
        }
        assert Distinct(init) by {
          forall i, j | 0 <= i < j < |init| ensures init[i] != init[j] {
            assert init[i] == moves[i] && init[j] == moves[j];
          }
        }
      }
    }
  }

  /** `b` is one king move away from `a`. */
  predicate Adjacent(a: Cell, b: Cell)
  {
    Chebyshev(b.Minus(a)) == 1
  }

  /** The move table holds eight different offsets, and they are exactly the
      king moves: an offset is in the table if and only if it is one step long. */
  lemma MovesAreKingMoves()
    ensures |PossibleMoves()| == 8 && Distinct(PossibleMoves())
    ensures forall d :: d in PossibleMoves() <==> Chebyshev(d) == 1
  {
    forall d | Chebyshev(d) == 1
      ensures d in PossibleMoves()
    {
      assert -1 <= d.x <= 1 && -1 <= d.y <= 1 && (d.x != 0 || d.y != 0);
    }
  }

  /** The search heuristic: the Manhattan distance, which is zero exactly at
      the target and lies between one and two times the number of king moves
      needed. */
  function GetHeuristic(a: Cell, b: Cell): (h: nat)
    ensures h == 0 <==> a == b
    ensures Chebyshev(b.Minus(a)) <= h <= 2 * Chebyshev(b.Minus(a))
  {
    Manhattan(a, b)
  }

  /** With diagonal moves at unit cost the heuristic can exceed the true
      distance: one diagonal step away it estimates two. */
  lemma HeuristicOverestimatesDiagonals(a: Cell)
    ensures Adjacent(a, a.Plus(Cell(1, 1)))
    ensures GetHeuristic(a, a.Plus(Cell(1, 1))) == 2
  {
  }

  /** A search node: its cell, the steps counted from the start (`G`), the
      estimate to the target (`H`) and the cell of the node it was reached
      from. Nodes are filed one per cell in `allNodes`, so a node is named by
      its cell, and so is its parent. Costs are whole numbers of steps here
      (the source keeps them in `float`). */
  datatype Node = Node(Position: Cell, G: int, H: int, Parent: Option<Cell>)
  {
    /** `F => G + H`, the key the open list is sorted by. */
    function F(): int
    {
      G + H
    }
  }

  /** The `F` of the node filed under `c` (the open list only holds filed cells). */
  function FOf(nodes: map<Cell, Node>, c: Cell): int
  {
    if c in nodes then nodes[c].F() else 0
  }

  /** `s` is in non-decreasing order of the nodes' `F`, which is what
      `List.Sort` with `CompareTo` on `F` leaves behind: no node has a larger
      `F` than the next. */
  ghost predicate SortedByF(s: seq<Cell>, nodes: map<Cell, Node>)
  {
    |s| <= 1 || (FOf(nodes, s[0]) <= FOf(nodes, s[1]) && SortedByF(s[1..], nodes))
  }

  /** The recursive definition says the same as comparing every entry with
      the next one. */
  lemma {:induction false} SortedByFAdjacent(s: seq<Cell>, nodes: map<Cell, Node>)
    ensures SortedByF(s, nodes) <==>
      forall k :: 0 <= k < |s| - 1 ==> FOf(nodes, s[k]) <= FOf(nodes, s[k + 1])
    decreases |s|
  {
    if |s| > 1 {
      SortedByFAdjacent(s[1..], nodes);
      assert forall k :: 1 <= k < |s| ==> s[1..][k - 1] == s[k];
    }
  }

  /** The front of a sorted list has the least `F` of all its entries. */
  lemma {:induction false} SortedFrontIsLeast(s: seq<Cell>, nodes: map<Cell, Node>)
    requires SortedByF(s, nodes) && |s| > 0
    ensures forall k :: 0 <= k < |s| ==> FOf(nodes, s[0]) <= FOf(nodes, s[k])
    decreases |s|
  {
    if |s| > 1 {
      SortedFrontIsLeast(s[1..], nodes);
      assert forall k :: 1 <= k < |s| ==> s[1..][k - 1] == s[k];
    }
  }

  /** Inserts `x` after every entry whose `F` is not greater than its own. */
  method InsertByF(s: seq<Cell>, x: Cell, nodes: map<Cell, Node>) returns (r: seq<Cell>)
    requires SortedByF(s, nodes)
    ensures multiset(r) == multiset(s) + multiset{x}
    ensures SortedByF(r, nodes)
  {
    var j := 0;
    while j < |s| && FOf(nodes, s[j]) <= FOf(nodes, x)
      invariant 0 <= j <= |s|
      invariant j > 0 ==> FOf(nodes, s[j - 1]) <= FOf(nodes, x)
    {
      j := j + 1;
    }
    r := s[..j] + [x] + s[j..];
    InsertAdds(s, x, j);
    InsertKeepsOrder(s, x, j, r, nodes);
  }

  /** Placing `x` between a prefix that ends no higher and a suffix that
      starts higher keeps a sorted list sorted. */
  lemma InsertKeepsOrder(s: seq<Cell>, x: Cell, j: int, r: seq<Cell>, nodes: map<Cell, Node>)
    requires SortedByF(s, nodes) && 0 <= j <= |s| && r == s[..j] + [x] + s[j..]
    requires j > 0 ==> FOf(nodes, s[j - 1]) <= FOf(nodes, x)
    requires j < |s| ==> FOf(nodes, x) < FOf(nodes, s[j])
    ensures SortedByF(r, nodes)
  {
    SortedByFAdjacent(s, nodes);
    forall k | 0 <= k < |r| - 1
      ensures FOf(nodes, r[k]) <= FOf(nodes, r[k + 1])
    {
      if k < j - 1 {
        assert r[k] == s[k] && r[k + 1] == s[k + 1];
      } else if k > j {
        assert r[k] == s[k - 1] && r[k + 1] == s[k];
      }
    }
    SortedByFAdjacent(r, nodes);
  }

  /** Sorts a list by the nodes' `F`: a permutation in non-decreasing order. */
  method SortByF(s: seq<Cell>, nodes: map<Cell, Node>) returns (r: seq<Cell>)
    ensures multiset(r) == multiset(s)
    ensures SortedByF(r, nodes)
  {
    r := [];
    for k := 0 to |s|
      invariant multiset(r) == multiset(s[..k])
      invariant SortedByF(r, nodes)
    {
      r := InsertByF(r, s[k], nodes);
      assert s[..k + 1] == s[..k] + [s[k]];
    }
    assert s[..|s|] == s;
  }

  /** What `Dequeue` hands back: the front entry, or the
      `InvalidOperationException` it throws on an empty queue. */
  datatype Dequeued = Taken(cell: Cell) | EmptyQueue

  /** The open list: the queued nodes, named by their cells, kept sorted by
      `F`; `nodes` supplies the current `F` of each. */
  class NodeQueue {
    var data: seq<Cell>

    function Count(): nat
      reads this
    {
      |data|
    }

    constructor()
      ensures data == []
    {
      data := [];
    }

    /** Appends `item` and sorts the list again. */
    method Enqueue(item: Cell, nodes: map<Cell, Node>)
      modifies this
      ensures multiset(data) == multiset(old(data)) + multiset{item}
      ensures |data| == |old(data)| + 1 && forall c :: c in data <==> c in old(data) || c == item
      ensures SortedByF(data, nodes)
    {
      data := SortByF(data + [item], nodes);
      assert |data| == |multiset(data)|;
      assert forall c :: c in data <==> c in multiset(data);
    }

    /** Removes and returns the front entry; on a sorted list that is a node
        of least `F`, and what is left stays sorted. */
    method Dequeue(ghost nodes: map<Cell, Node>) returns (r: Dequeued)
      modifies this
      ensures old(data) == [] ==> r == EmptyQueue && data == []
      ensures old(data) != [] ==> r == Taken(old(data)[0]) && data == old(data)[1..]
      ensures r.Taken? && SortedByF(old(data), nodes) ==>
        && SortedByF(data, nodes)
        && forall k :: 0 <= k < |data| ==> FOf(nodes, r.cell) <= FOf(nodes, data[k])
    {
      if |data| == 0 {
        return EmptyQueue;
      }
      if SortedByF(data, nodes) {
        SortedFrontIsLeast(data, nodes);
      }
      r := Taken(data[0]);
      data := data[1..];
    }

    /** Re-sorts the whole list after a node's `G` went down; `item` is not
        looked at. */
    method UpdatePriority(item: Cell, nodes: map<Cell, Node>)
      modifies this
      ensures multiset(data) == multiset(old(data))
      ensures |data| == |old(data)| && forall c :: c in data <==> c in old(data)
      ensures SortedByF(data, nodes)
    {
      data := SortByF(data, nodes);
      assert |data| == |multiset(data)|;
      assert forall c :: c in data <==> c in multiset(data);
    }
  }

  class Pathfinding {
    const walkableGrid: array2<bool>
    const width: int
    const height: int

    constructor(walkableGrid: array2<bool>)
      ensures this.walkableGrid == walkableGrid
      ensures width == walkableGrid.Length0 && height == walkableGrid.Length1
    {
      this.walkableGrid := walkableGrid;
      width := walkableGrid.Length0;
      height := walkableGrid.Length1;
    }

    ghost predicate Valid()
    {
      width == walkableGrid.Length0 && height == walkableGrid.Length1
    }

    /** A walk of king moves from `start` whose every cell after the first is walkable. */
    ghost predicate IsRoute(path: seq<Cell>, start: Cell)
      requires Valid()
      reads walkableGrid
    {
      && |path| >= 1 && path[0] == start
      && (forall k :: 0 <= k < |path| - 1 ==> Adjacent(path[k], path[k + 1]))
      && (forall k :: 1 <= k < |path| ==> IsWalkable(path[k]))
    }

    /** Cells off the grid are blocked; on the grid the flag decides. */
    predicate IsWalkable(pos: Cell)
      requires Valid()
      reads walkableGrid
      ensures IsWalkable(pos) <==> InRect(pos, width, height) && walkableGrid[pos.x, pos.y]
    {
      if pos.x < 0 || pos.x >= width || pos.y < 0 || pos.y >= height then false
      else walkableGrid[pos.x, pos.y]
    }

    /** The on-grid cells one king move from `pos`, each once, in the order of
        the move table. */
    method GetNeighbors(pos: Cell) returns (neighbors: seq<Cell>)
      ensures forall q :: q in neighbors <==> Adjacent(pos, q) && InRect(q, width, height)
      ensures Distinct(neighbors) && |neighbors| <= 8
      ensures neighbors == StepsInRect(pos, PossibleMoves(), width, height)
    {
      var possibleMoves := PossibleMoves();
      neighbors := [];
      for m := 0 to |possibleMoves|
        invariant neighbors == StepsInRect(pos, possibleMoves[..m], width, height)
      {
        assert possibleMoves[..m + 1][..m] == possibleMoves[..m];
        var neighborPos := pos.Plus(possibleMoves[m]);
        if 0 <= neighborPos.x < width && 0 <= neighborPos.y < height {
          neighbors := neighbors + [neighborPos];
        }
      }
      assert possibleMoves[..|possibleMoves|] == possibleMoves;
      MovesAreKingMoves();
      StepsInRectMembers(pos, possibleMoves, width, height);
      StepsInRectDistinct(pos, possibleMoves, width, height);
      forall q
        ensures q in neighbors <==> Adjacent(pos, q) && InRect(q, width, height)
      {
        if Adjacent(pos, q) && InRect(q, width, height) {
          var d := q.Minus(pos);
          assert d in possibleMoves;
          var k :| 0 <= k < |possibleMoves| && possibleMoves[k] == d;
          assert q == pos.Plus(possibleMoves[k]);
        }
        if q in neighbors {
          var k :| 0 <= k < |possibleMoves| && q == pos.Plus(possibleMoves[k]);
          assert q.Minus(pos) == possibleMoves[k];
        }
      }
    }

    /** `W` holds exactly the walkable cells. */
    ghost predicate WalkableSet(W: set<Cell>)
      requires Valid()
      reads walkableGrid
    {
      forall c {:trigger IsWalkable(c)} :: c in W <==> IsWalkable(c)
    }

    /** The walkable cells of the grid. */
    ghost function WalkableCells(): (W: set<Cell>)
      requires Valid()
      reads walkableGrid
      ensures WalkableSet(W) && W <= RectCells(width, height)
    {
      set c | c in RectCells(width, height) && IsWalkable(c)
    }


    /** A* from `start` to `target`. On success the result is a walk of king
        moves from `start` to `target` over walkable cells that visits no cell
        twice (just `[start]` when the two coincide); `null` only when no such
        walk exists at all. */
    method FindPath(start: Cell, target: Cell) returns (path: Option<seq<Cell>>)
      requires Valid()
      ensures path.Some? ==> IsRoute(path.value, start) && Last(path.value) == target
      ensures path.Some? ==> Distinct(path.value)
      ensures path.None? ==> forall w :: IsRoute(w, start) ==> Last(w) != target
      ensures start == target ==> path == Some([start])
    {
      var openSet := new NodeQueue();
      var allNodes: map<Cell, Node> := map[];

      var startNode := Node(start, 0, GetHeuristic(start, target), None);
      allNodes := allNodes[start := startNode];
      openSet.Enqueue(start, allNodes);
      ghost var expanded: set<Cell> := {};
      ghost var W := WalkableCells();
      ReachedInGrid(allNodes, start, W, RectCells(width, height));

      while openSet.Count() > 0
        invariant fresh(openSet)
        invariant Tree(allNodes, start) && Within(allNodes, start, W)
        invariant Open(allNodes, openSet.data, expanded) && Closed(expanded, allNodes.Keys, W)
        invariant SortedByF(openSet.data, allNodes)
        invariant target !in expanded
        invariant |allNodes| <= |RectCells(width, height)| + 1
        decreases |RectCells(width, height)| + 1 - |allNodes|, |openSet.data|
      {
        var found;
        found, allNodes, expanded := Step(target, openSet, allNodes, start, expanded, W);
        if found.Some? {
          return found;
        }
        ReachedInGrid(allNodes, start, W, RectCells(width, height));
      }

      // No path found
      NoRouteOut(start, target, expanded, W);
      return None;
    }

    /** One round of the search loop: the queued node of least `F` leaves
        the open list; if it stands on the target the walk to it is
        retraced, otherwise it is expanded. */
    method Step(target: Cell, openSet: NodeQueue, allNodes: map<Cell, Node>, ghost start: Cell,
                ghost expanded: set<Cell>, ghost W: set<Cell>)
      returns (found: Option<seq<Cell>>, nodes: map<Cell, Node>, ghost expanded': set<Cell>)
      requires Valid() && WalkableSet(W) && openSet.data != []
      requires Tree(allNodes, start) && Within(allNodes, start, W)
      requires Open(allNodes, openSet.data, expanded) && Closed(expanded, allNodes.Keys, W)
      requires SortedByF(openSet.data, allNodes) && target !in expanded
      modifies openSet
      ensures found.Some? ==> IsRoute(found.value, start) && Last(found.value) == target
      ensures found.Some? ==> Distinct(found.value) && (start == target ==> found.value == [start])
      ensures found.None? ==>
        && Tree(nodes, start) && Within(nodes, start, W)
        && Open(nodes, openSet.data, expanded') && Closed(expanded', nodes.Keys, W)
        && SortedByF(openSet.data, nodes) && target !in expanded'
      ensures found.None? ==> |nodes| > |allNodes| || (|nodes| == |allNodes| && |openSet.data| < |old(openSet.data)|)
    {
      ghost var queued := openSet.data;
      var taken := openSet.Dequeue(allNodes);
      assert queued == [taken.cell] + openSet.data;
      var current := allNodes[taken.cell];

      if current.Position == target {
        var route := RetracePath(current, allNodes, start, W);
        if start == target {
          SingleCellRoute(route, start);
        }
        return Some(route), allNodes, expanded;
      }

      found := None;
      nodes := Expand(current, target, openSet, allNodes, start, expanded, W);
      expanded' := expanded + {current.Position};
      ClosedAfterExpansion(expanded, current.Position, allNodes.Keys, nodes.Keys, W);
    }

    /** The neighbour loop of `FindPath` for the node just taken from the
        queue: blocked neighbours are skipped, the others relaxed. Afterwards
        that node counts as expanded: its walkable neighbours all have nodes. */
    method Expand(current: Node, target: Cell, openSet: NodeQueue, allNodes: map<Cell, Node>,
                  ghost start: Cell, ghost expanded: set<Cell>, ghost W: set<Cell>)
      returns (nodes: map<Cell, Node>)
      requires Valid() && WalkableSet(W)
      requires Tree(allNodes, start) && Within(allNodes, start, W)
      requires current.Position in allNodes && allNodes[current.Position] == current
      requires Open(allNodes, openSet.data, expanded + {current.Position})
      modifies openSet
      ensures Tree(nodes, start) && Within(nodes, start, W)
      ensures Open(nodes, openSet.data, expanded + {current.Position})
      ensures allNodes.Keys <= nodes.Keys
      ensures forall q :: Adjacent(current.Position, q) && q in W ==> q in nodes
      ensures SortedByF(old(openSet.data), allNodes) ==> SortedByF(openSet.data, nodes)
      ensures |openSet.data| - |old(openSet.data)| == |nodes| - |allNodes| >= 0
    {
      var neighbors := GetNeighbors(current.Position);
      ghost var done := expanded + {current.Position};
      ghost var queued := openSet.data;
      ghost var sorted := SortedByF(queued, allNodes);
      nodes := allNodes;
      for i := 0 to |neighbors|
        invariant Tree(nodes, start) && Within(nodes, start, W)
        invariant current.Position in nodes && nodes[current.Position] == current
        invariant allNodes.Keys <= nodes.Keys
        invariant Open(nodes, openSet.data, done)
        invariant forall k :: 0 <= k < i ==> neighbors[k] !in W || neighbors[k] in nodes
        invariant sorted ==> SortedByF(openSet.data, nodes)
        invariant |openSet.data| - |queued| == |nodes| - |allNodes| >= 0
      {
        nodes := Visit(current, neighbors[i], target, openSet, nodes, start, done, W);
      }
      NeighborsCovered(current.Position, neighbors, nodes.Keys, W);
    }

    /** Once every listed neighbour that is walkable has a node, every
        walkable king move out of `p0` leads to a node. */
    lemma NeighborsCovered(p0: Cell, neighbors: seq<Cell>, keys: set<Cell>, W: set<Cell>)
      requires Valid() && WalkableSet(W)
      requires forall q :: q in neighbors <==> Adjacent(p0, q) && InRect(q, width, height)
      requires forall k :: 0 <= k < |neighbors| ==> neighbors[k] !in W || neighbors[k] in keys
      ensures forall q :: Adjacent(p0, q) && q in W ==> q in keys
    {
      forall q | Adjacent(p0, q) && q in W
        ensures q in keys
      {
        assert IsWalkable(q);
        assert q in neighbors;
      }
    }

    /** One neighbour of the node being expanded: a blocked cell is
        skipped, a walkable one is relaxed. */
    method Visit(current: Node, pos: Cell, target: Cell, openSet: NodeQueue, allNodes: map<Cell, Node>,
                 ghost start: Cell, ghost expanded: set<Cell>, ghost W: set<Cell>)
      returns (nodes: map<Cell, Node>)
      requires Valid() && WalkableSet(W)
      requires Tree(allNodes, start) && Within(allNodes, start, W)
      requires current.Position in allNodes && allNodes[current.Position] == current
      requires Adjacent(current.Position, pos) && Open(allNodes, openSet.data, expanded)
      modifies openSet
      ensures Tree(nodes, start) && Within(nodes, start, W)
      ensures current.Position in nodes && nodes[current.Position] == current
      ensures Open(nodes, openSet.data, expanded)
      ensures allNodes.Keys <= nodes.Keys && (pos in W ==> pos in nodes)
      ensures |openSet.data| - |old(openSet.data)| == |nodes| - |allNodes| >= 0
      ensures SortedByF(old(openSet.data), allNodes) ==> SortedByF(openSet.data, nodes)
    {
      if !IsWalkable(pos) {
        return allNodes;
      }
      nodes := Relax(current, pos, target, openSet, allNodes, start, expanded, W);
    }

    /** Expanding `p0` closes it once every walkable neighbour is a key. */
    lemma ClosedAfterExpansion(expanded: set<Cell>, p0: Cell, before: set<Cell>, after: set<Cell>, W: set<Cell>)
      requires Closed(expanded, before, W) && before <= after
      requires forall q :: Adjacent(p0, q) && q in W ==> q in after
      ensures Closed(expanded + {p0}, after, W)
    {
    }

    /** Within a set of cells closed under walkable king moves, every walk
        from one of its cells ends inside it. */
    lemma {:induction false} RouteStaysInside(w: seq<Cell>, start: Cell, reached: set<Cell>, W: set<Cell>)
      requires Valid() && IsRoute(w, start) && start in reached
      requires WalkableSet(W) && Closed(reached, reached, W)
      ensures Last(w) in reached
      decreases |w|
    {
      if |w| > 1 {
        var init := w[..|w| - 1];
        assert IsRoute(init, start);
        RouteStaysInside(init, start, reached, W);
        assert Adjacent(w[|w| - 2], w[|w| - 1]);
      }
    }

    /** When the search stops without reaching `target`, every cell with a
        node has been expanded, and no walk from `start` leaves them; so none
        ends at `target`. */
    lemma NoRouteOut(start: Cell, target: Cell, reached: set<Cell>, W: set<Cell>)
      requires Valid() && WalkableSet(W) && start in reached && target !in reached
      requires Closed(reached, reached, W)
      ensures forall w :: IsRoute(w, start) ==> Last(w) != target
    {
      forall w | IsRoute(w, start)
        ensures Last(w) != target
      {
        RouteStaysInside(w, start, reached, W);
      }
    }

    /** Follows parent links from `endNode` back to the start and reverses the
        cells met: the tree's chain from `endNode`'s cell, read from the
        start, which is a walk to that cell with no repeats. */
    method RetracePath(endNode: Node, allNodes: map<Cell, Node>, ghost start: Cell, ghost W: set<Cell>)
      returns (path: seq<Cell>)
      requires Valid() && WalkableSet(W)
      requires Tree(allNodes, start) && Within(allNodes, start, W)
      requires endNode.Position in allNodes && allNodes[endNode.Position] == endNode
      ensures path == Reversed(Chain(allNodes, start, endNode.Position))
      ensures IsRoute(path, start) && Last(path) == endNode.Position
      ensures Distinct(path)
    {
      ghost var chain := Chain(allNodes, start, endNode.Position);
      ChainFacts(allNodes, start, endNode.Position);
      var cells: seq<Cell> := [];
      var current: Option<Node> := Some(endNode);
      ghost var i := 0;
      while current.Some?
        invariant 0 <= i <= |chain| && cells == chain[..i]
        invariant current.Some? ==> i < |chain| && current.value == allNodes[chain[i]]
        invariant current.None? ==> i == |chain|
        decreases |chain| - i
      {
        if i < |chain| - 1 {
          assert allNodes[chain[i]].Parent == Some(chain[i + 1]);
        } else {
          assert allNodes[chain[i]].Parent == None;
        }
        cells := cells + [current.value.Position];
        current := match current.value.Parent
          case None => None
          case Some(q) => Some(allNodes[q]);
        i := i + 1;
      }
      path := Reversed(cells);
      RouteOfChain(allNodes, start, endNode.Position, W);
    }

    /** A chain of reached cells, read from the start, is a route. */
    lemma RouteOfChain(nodes: map<Cell, Node>, start: Cell, p: Cell, W: set<Cell>)
      requires Valid() && WalkableSet(W)
      requires Tree(nodes, start) && Within(nodes, start, W) && p in nodes
      ensures var path := Reversed(Chain(nodes, start, p));
        IsRoute(path, start) && Last(path) == p && Distinct(path)
    {
      ChainIsRoute(nodes, start, p);
      var path := Reversed(Chain(nodes, start, p));
      forall k | 1 <= k < |path|
        ensures IsWalkable(path[k])
      {
        assert path[k] in W;
      }
    }
  }

  /** Every cell with a node, other than the start, is walkable. */
  ghost predicate Within(nodes: map<Cell, Node>, start: Cell, W: set<Cell>)
  {
    forall p :: p in nodes && p != start ==> p in W
  }

  /** Every cell with a node is the start or one of the cells `W` is drawn
      from, so there are at most one more nodes than such cells. */
  lemma ReachedInGrid(nodes: map<Cell, Node>, start: Cell, W: set<Cell>, cells: set<Cell>)
    requires Within(nodes, start, W) && W <= cells
    ensures nodes.Keys <= cells + {start} && |nodes| <= |cells| + 1
  {
    SubsetCard(nodes.Keys, cells + {start});
  }

  /** Every walkable king move out of an expanded cell leads to a key. */
  ghost predicate Closed(expanded: set<Cell>, keys: set<Cell>, W: set<Cell>)
  {
    forall p, q :: p in expanded && Adjacent(p, q) && q in W ==> q in keys
  }

  /** The bookkeeping of the open list: every queued cell has a node, every
      cell with a node is queued or already expanded, and only cells with
      nodes are expanded. */
  ghost predicate Open(nodes: map<Cell, Node>, data: seq<Cell>, expanded: set<Cell>)
  {
    && (forall c :: c in data ==> c in nodes)
    && (forall p :: p in nodes ==> p in expanded || p in data)
    && expanded <= nodes.Keys
  }

  /** The body of the neighbour loop for one walkable neighbour `pos` of
      `current`, one step further from the start: a cell seen for the first
      time gets a new node and is queued; a known cell reached more cheaply
      takes the lower `G` and `current` as parent; otherwise nothing changes.
      Only the node at `pos` changes, and its `G` ends up the lesser of what
      it was and one step more than `current`'s. */
  method Relax(current: Node, pos: Cell, target: Cell, openSet: NodeQueue, allNodes: map<Cell, Node>,
               ghost start: Cell, ghost expanded: set<Cell>, ghost W: set<Cell>)
    returns (nodes: map<Cell, Node>)
    requires Tree(allNodes, start) && Within(allNodes, start, W)
    requires current.Position in allNodes && allNodes[current.Position] == current
    requires Adjacent(current.Position, pos) && pos in W
    requires Open(allNodes, openSet.data, expanded)
    modifies openSet
    ensures Tree(nodes, start) && Within(nodes, start, W)
    ensures Open(nodes, openSet.data, expanded)
    ensures pos in nodes && nodes == allNodes[pos := nodes[pos]]
    ensures nodes[pos].G <= current.G + 1
    ensures pos in allNodes ==>
      && nodes[pos].G <= allNodes[pos].G
      && (nodes[pos] == allNodes[pos] || nodes[pos].G == current.G + 1)
      && |openSet.data| == |old(openSet.data)|
    ensures pos !in allNodes ==>
      && nodes[pos].H == GetHeuristic(pos, target)
      && |openSet.data| == |old(openSet.data)| + 1
    ensures SortedByF(old(openSet.data), allNodes) ==> SortedByF(openSet.data, nodes)
  {
    var tentativeG := current.G + 1;
    if pos in allNodes {
      var neighbor := allNodes[pos];
      if tentativeG < neighbor.G {
        nodes := Improve(current, pos, openSet, allNodes, start, expanded, W);
      } else {
        nodes := allNodes;
        assert nodes == allNodes[pos := neighbor];
      }
    } else {
      nodes := Discover(current, pos, target, openSet, allNodes, start, expanded, W);
    }
  }

  /** A cheaper way into the known cell `pos`: its node takes
      `G = current.G + 1` and `current` as parent, and the queue is
      re-sorted. */
  method Improve(current: Node, pos: Cell, openSet: NodeQueue, allNodes: map<Cell, Node>,
                 ghost start: Cell, ghost expanded: set<Cell>, ghost W: set<Cell>)
    returns (nodes: map<Cell, Node>)
    requires Tree(allNodes, start) && Within(allNodes, start, W)
    requires current.Position in allNodes && allNodes[current.Position] == current
    requires Adjacent(current.Position, pos) && pos in allNodes && current.G + 1 < allNodes[pos].G
    requires Open(allNodes, openSet.data, expanded)
    modifies openSet
    ensures Tree(nodes, start) && Within(nodes, start, W)
    ensures Open(nodes, openSet.data, expanded)
    ensures nodes == allNodes[pos := allNodes[pos].(G := current.G + 1, Parent := Some(current.Position))]
    ensures |openSet.data| == |old(openSet.data)| && SortedByF(openSet.data, nodes)
  {
    nodes := allNodes[pos := allNodes[pos].(G := current.G + 1, Parent := Some(current.Position))];
    TreeRedirect(allNodes, start, current.Position, pos);
    openSet.UpdatePriority(pos, nodes);
  }

  /** A first visit to `pos`: a node with `G = current.G + 1`, the
      heuristic estimate to `target` and parent `current` is filed and
      queued. */
  method Discover(current: Node, pos: Cell, target: Cell, openSet: NodeQueue, allNodes: map<Cell, Node>,
                  ghost start: Cell, ghost expanded: set<Cell>, ghost W: set<Cell>)
    returns (nodes: map<Cell, Node>)
    requires Tree(allNodes, start) && Within(allNodes, start, W)
    requires current.Position in allNodes && allNodes[current.Position] == current
    requires Adjacent(current.Position, pos) && pos in W && pos !in allNodes
    requires Open(allNodes, openSet.data, expanded)
    modifies openSet
    ensures Tree(nodes, start) && Within(nodes, start, W)
    ensures Open(nodes, openSet.data, expanded)
    ensures nodes == allNodes[pos := Node(pos, current.G + 1, GetHeuristic(pos, target), Some(current.Position))]
    ensures |openSet.data| == |old(openSet.data)| + 1 && SortedByF(openSet.data, nodes)
  {
    var neighbor := Node(pos, current.G + 1, GetHeuristic(pos, target), Some(current.Position));
    nodes := allNodes[pos := neighbor];
    TreeExtend(allNodes, start, current.Position, pos, neighbor);
    openSet.Enqueue(pos, nodes);
  }

  /** The search tree the nodes form: each node is filed under its own cell;
      the start's node is the root, with `G = 0` and no parent; every other
      node is linked to its parent. */
  ghost predicate Tree(nodes: map<Cell, Node>, start: Cell)
  {
    && start in nodes && nodes[start].G == 0 && nodes[start].Parent.None?
    && (forall p {:trigger nodes[p]} :: p in nodes ==> nodes[p].Position == p)
    && (forall p {:trigger nodes[p].Parent} :: p in nodes && p != start ==> Linked(nodes, p))
  }

  /** The node at `p` names as its parent a cell with a node, one king move
      away, whose `G` is not negative and smaller than `p`'s. */
  ghost predicate Linked(nodes: map<Cell, Node>, p: Cell)
    requires p in nodes
  {
    && nodes[p].Parent.Some?
    && var q := nodes[p].Parent.value;
      q in nodes && Adjacent(q, p) && 0 <= nodes[q].G < nodes[p].G
  }

  /** Every node's `G` is at least zero. */
  lemma TreeCost(nodes: map<Cell, Node>, start: Cell, p: Cell)
    requires Tree(nodes, start) && p in nodes
    ensures nodes[p].G >= 0
  {
    if p != start {
      assert Linked(nodes, p);
    }
  }

  /** A first visit keeps the tree a tree: the new node hangs one step below
      a node already filed. */
  lemma TreeExtend(nodes: map<Cell, Node>, start: Cell, c: Cell, pos: Cell, n: Node)
    requires Tree(nodes, start) && c in nodes && pos !in nodes && Adjacent(c, pos)
    requires n == Node(pos, nodes[c].G + 1, n.H, Some(c))
    ensures Tree(nodes[pos := n], start)
  {
    TreeCost(nodes, start, c);
    var nodes' := nodes[pos := n];
    forall p | p in nodes' && p != start
      ensures Linked(nodes', p)
    {
      if p != pos {
        assert Linked(nodes, p);
      }
    }
  }

  /** A cheaper way into a filed cell keeps the tree a tree: its node moves
      under `c` with the smaller `G`, and every node below it still has a
      larger `G` than its parent. */
  lemma TreeRedirect(nodes: map<Cell, Node>, start: Cell, c: Cell, pos: Cell)
    requires Tree(nodes, start) && c in nodes && pos in nodes && Adjacent(c, pos)
    requires nodes[c].G + 1 < nodes[pos].G
    ensures pos != start
    ensures Tree(nodes[pos := nodes[pos].(G := nodes[c].G + 1, Parent := Some(c))], start)
  {
    TreeCost(nodes, start, c);
    var nodes' := nodes[pos := nodes[pos].(G := nodes[c].G + 1, Parent := Some(c))];
    forall p | p in nodes' && p != start
      ensures Linked(nodes', p)
    {
      if p != pos {
        assert Linked(nodes, p);
      }
    }
  }

  /** The cells met following parent links from `p` back to the start. */
  ghost function Chain(nodes: map<Cell, Node>, start: Cell, p: Cell): seq<Cell>
    requires Tree(nodes, start) && p in nodes
    decreases nodes[p].G
  {
    match nodes[p].Parent
    case None => [p]
    case Some(q) =>
      assert p != start && Linked(nodes, p);
      [p] + Chain(nodes, start, q)
  }

  /** A chain runs from its cell to the start through parent links, every
      later cell having a smaller `G` than the first, and meets no cell
      twice. */
  lemma {:induction false} ChainFacts(nodes: map<Cell, Node>, start: Cell, p: Cell)
    requires Tree(nodes, start) && p in nodes
    ensures var c := Chain(nodes, start, p);
      && |c| >= 1 && c[0] == p && c[|c| - 1] == start
      && (forall k :: 0 <= k < |c| ==> c[k] in nodes)
      && (forall k :: 0 <= k < |c| - 1 ==> nodes[c[k]].Parent == Some(c[k + 1]) && Adjacent(c[k + 1], c[k]))
      && nodes[c[|c| - 1]].Parent == None
      && (forall k :: 0 < k < |c| ==> nodes[c[k]].G < nodes[p].G)
      && Distinct(c)
    decreases nodes[p].G
  {
    match nodes[p].Parent {
      case None =>
      case Some(q) =>
        assert p != start && Linked(nodes, p);
        ChainFacts(nodes, start, q);
        var c, r := Chain(nodes, start, p), Chain(nodes, start, q);
        assert c == [p] + r;
        assert forall k :: 0 < k < |c| ==> c[k] == r[k - 1];
        forall k | 0 < k < |c|
          ensures nodes[c[k]].G < nodes[p].G
        {
          if k > 1 {
            assert c[k] == r[k - 1];
          }
        }
    }
  }

  /** Read from the start, a chain is a walk of king moves over filed cells
      that ends at the chain's cell, repeats none, and meets the start only
      at its head. */
  lemma ChainIsRoute(nodes: map<Cell, Node>, start: Cell, p: Cell)
    requires Tree(nodes, start) && p in nodes
    ensures var path := Reversed(Chain(nodes, start, p));
      && |path| >= 1 && path[0] == start && path[|path| - 1] == p
      && (forall k :: 0 <= k < |path| - 1 ==> Adjacent(path[k], path[k + 1]))
      && (forall k :: 1 <= k < |path| ==> path[k] in nodes && path[k] != start)
      && Distinct(path)
  {
    ChainFacts(nodes, start, p);
    var c := Chain(nodes, start, p);
    ReversedSteps(c, nodes);
    ReversedDistinct(c);
  }

  /** Reversing a run of parent links gives king moves forward over filed cells. */
  lemma ReversedSteps(c: seq<Cell>, nodes: map<Cell, Node>)
    requires |c| >= 1 && forall k :: 0 <= k < |c| ==> c[k] in nodes
    requires forall k :: 0 <= k < |c| - 1 ==> Adjacent(c[k + 1], c[k])
    ensures var path := Reversed(c);
      && (forall k :: 0 <= k < |path| - 1 ==> Adjacent(path[k], path[k + 1]))
      && (forall k :: 0 <= k < |path| ==> path[k] in nodes)
  {
    var path := Reversed(c);
    forall k | 0 <= k < |path| - 1
      ensures Adjacent(path[k], path[k + 1])
    {
      var m := |c| - 1 - k;
      assert path[k] == c[m] && path[k + 1] == c[m - 1];
    }
    forall k | 0 <= k < |path|
      ensures path[k] in nodes
    {
      assert path[k] == c[|c| - 1 - k];
    }
  }

  /** A walk without repeats that starts and ends at the same cell is that cell alone. */
  lemma SingleCellRoute(route: seq<Cell>, c: Cell)
    requires Distinct(route) && |route| >= 1 && route[0] == c && Last(route) == c
    ensures route == [c]
  {
  }

  function Last<T>(s: seq<T>): T
    requires |s| >= 1
  {
    s[|s| - 1]
  }
}
