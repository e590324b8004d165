/** The breadth-first shortening of `FindFinalPath` in
    `Assets/Script/Terrain/TerrainMapGenerator.cs`, at the level of values:
    the cells one expansion enqueues, the predecessor and depth maps it
    updates, the invariant of the search loop, and the ranking that lets the
    back-walk run over the predecessor array the search leaves behind. */
module RouteSweep {
  import opened Grid
  import opened RouteCost
  import opened RouteTree

  /** The cells the expansion of `point` enqueues through the first `n`
      offsets of the table: grid cells of `allowed` that were not `seen`
      before and that no earlier offset enqueued (the search marks a cell
      visited the moment it enqueues it, so the repeated `(-1,-1)` offset
      enqueues nothing the second time). */
  function Spreading(point: Cell, res: int, allowed: set<Cell>, seen: set<Cell>, n: nat): seq<Cell>
    requires n <= |Directions()|
  {
    if n == 0 then []
    else
      var prev := Spreading(point, res, allowed, seen, n - 1);
      var c := point.Plus(Directions()[n - 1]);
      prev + if InGrid(c, res) && c in allowed && c !in seen && c !in prev then [c] else []
  }

  /** An expansion enqueues distinct, unseen, allowed grid cells one table step
      from `point`, and every such cell some offset reaches. */
  lemma {:induction false} SpreadingIsFreshNeighbours(point: Cell, res: int, allowed: set<Cell>, seen: set<Cell>, n: nat)
    requires n <= |Directions()|
    ensures Distinct(Spreading(point, res, allowed, seen, n))
    ensures forall c :: c in Spreading(point, res, allowed, seen, n) ==>
      FreshStep(point, c, res, seen) && c in allowed
    ensures forall k :: 0 <= k < n && FreshStep(point, point.Plus(Directions()[k]), res, seen) &&
                        point.Plus(Directions()[k]) in allowed ==>
      point.Plus(Directions()[k]) in Spreading(point, res, allowed, seen, n)
  {
    if n > 0 {
      SpreadingIsFreshNeighbours(point, res, allowed, seen, n - 1);
      var c := point.Plus(Directions()[n - 1]);
      assert c.Minus(point) == Directions()[n - 1];
    }
  }

  /** `added` is what expanding `point` must enqueue: distinct unseen allowed
      grid cells one table step from `point`, every such cell included. */
  ghost predicate Expands(point: Cell, res: int, allowed: set<Cell>, seen: set<Cell>, added: seq<Cell>)
  {
    && Distinct(added)
    && (forall c :: c in added ==> FreshStep(point, c, res, seen) && c in allowed)
    && (forall k :: 0 <= k < |Directions()| && FreshStep(point, point.Plus(Directions()[k]), res, seen) &&
                    point.Plus(Directions()[k]) in allowed ==>
          point.Plus(Directions()[k]) in added)
  }

  lemma SpreadingExpands(point: Cell, res: int, allowed: set<Cell>, seen: set<Cell>)
    ensures Expands(point, res, allowed, seen, Spreading(point, res, allowed, seen, |Directions()|))
  {
    SpreadingIsFreshNeighbours(point, res, allowed, seen, |Directions()|);
  }

  /** The predecessor map after the cells of `cells` take `parent` as predecessor. */
  ghost function Adopt(bm: map<Cell, Cell>, cells: seq<Cell>, parent: Cell): map<Cell, Cell>
  {
    map c | c in bm :: if c in cells then parent else bm[c]
  }

  /** The depth map after the cells of `cells` join at depth `d`. */
  ghost function Deepen(hops: map<Cell, nat>, cells: seq<Cell>, d: nat): map<Cell, nat>
  {
    map c | c in hops.Keys + Elements(cells) :: if c in hops then hops[c] else d
  }

  /** `hops'` extends `hops` by the cells of `added`, all new, at depth `d`. */
  ghost predicate DeepenedBy(hops: map<Cell, nat>, added: seq<Cell>, d: nat, hops': map<Cell, nat>)
  {
    && (forall c :: c in hops ==> c in hops' && hops'[c] == hops[c])
    && (forall c :: c in added ==> c !in hops && c in hops' && hops'[c] == d)
    && (forall c :: c in hops' ==> c in hops || c in added)
  }

  lemma DeepenIsDeepened(hops: map<Cell, nat>, added: seq<Cell>, d: nat, seen: set<Cell>)
    requires seen == hops.Keys
    requires forall c :: c in added ==> c !in seen
    ensures DeepenedBy(hops, added, d, Deepen(hops, added, d))
  {
  }

  /** `bm'` is `bm` with the cells of `cells` taking `parent` as predecessor. */
  ghost predicate AdoptedBy(bm: map<Cell, Cell>, cells: seq<Cell>, parent: Cell, bm': map<Cell, Cell>)
  {
    && (forall c :: c in bm' <==> c in bm)
    && (forall c :: c in bm ==> bm'[c] == if c in cells then parent else bm[c])
  }

  lemma AdoptIsAdopted(bm: map<Cell, Cell>, cells: seq<Cell>, parent: Cell)
    ensures AdoptedBy(bm, cells, parent, Adopt(bm, cells, parent))
  {
  }

  /** The part of the search state that does not mention the queue: `bm` is
      the predecessor grid, `hops` the visited cells of `allowed` with their
      depths forming a tree of table steps rooted at `start`, and every
      unvisited cell keeps the default predecessor `(0,0)`. */
  ghost predicate SweepTree(start: Cell, res: int, allowed: set<Cell>, bm: map<Cell, Cell>, hops: map<Cell, nat>)
  {
    && InGrid(start, res)
    && (forall c :: InGrid(c, res) ==> c in bm)
    && MapTree(bm, hops, start)
    && (forall c :: c in hops ==> InGrid(c, res) && c in allowed)
    && (forall c :: InGrid(c, res) && c !in hops ==> bm[c] == Cell(0, 0))
  }

  /** What holds at the head of the search loop: the queue holds visited
      cells, and every visited cell that has left the queue has all its
      allowed grid neighbours visited. */
  ghost predicate Sweep(start: Cell, res: int, allowed: set<Cell>, bm: map<Cell, Cell>, hops: map<Cell, nat>,
                        queue: seq<Cell>)
  {
    && SweepTree(start, res, allowed, bm, hops)
    && (forall k :: 0 <= k < |queue| ==> queue[k] in hops)
    && Closed(hops.Keys - Elements(queue), res, allowed, hops.Keys)
  }

  /** `w` is a table walk from `start` over cells of `allowed`. */
  ghost predicate WalkWithin(w: seq<Cell>, start: Cell, allowed: set<Cell>)
  {
    |w| >= 1 && w[0] == start && IsWalk(w) && forall k :: 0 <= k < |w| ==> w[k] in allowed
  }

  /** The layering of a breadth-first search: the root has depth 0; the queue
      holds visited cells in nondecreasing depth, none more than one level
      below the head; every visited cell that has left the queue is no deeper
      than the head, and each of its allowed grid neighbours is visited at
      most one level below it. */
  ghost predicate Layered(start: Cell, res: int, allowed: set<Cell>, hops: map<Cell, nat>, queue: seq<Cell>)
  {
    && start in hops && hops[start] == 0
    && (forall k :: 0 <= k < |queue| ==> queue[k] in hops)
    && (forall i, j :: 0 <= i <= j < |queue| ==> hops[queue[i]] <= hops[queue[j]])
    && (forall k :: 0 <= k < |queue| ==> hops[queue[k]] <= hops[queue[0]] + 1)
    && (forall c :: c in hops && c !in queue && |queue| > 0 ==> hops[c] <= hops[queue[0]])
    && (forall c, n :: c in hops && c !in queue && InGrid(n, res) && n in allowed && IsStep(c, n) ==>
          n in hops && hops[n] <= hops[c] + 1)
  }

  lemma SweepStart(start: Cell, res: int, allowed: set<Cell>, bm: map<Cell, Cell>)
    requires InGrid(start, res) && start in allowed
    requires forall c :: InGrid(c, res) ==> c in bm
    requires bm[start] == start
    requires forall c :: InGrid(c, res) && c != start ==> bm[c] == Cell(0, 0)
    ensures Sweep(start, res, allowed, bm, map[start := 0], [start])
    ensures Layered(start, res, allowed, map[start := 0], [start])
  {
    var hops: map<Cell, nat> := map[start := 0];
    assert hops.Keys - Elements([start]) == {};
  }

  /** Unvisited allowed grid cells one table step from a visited `point` join
      the tree as children of `point`, one level below it. */
  lemma AdoptKeepsTree(start: Cell, res: int, allowed: set<Cell>, bm: map<Cell, Cell>, hops: map<Cell, nat>,
                       point: Cell, added: seq<Cell>, bm': map<Cell, Cell>, hops': map<Cell, nat>)
    requires SweepTree(start, res, allowed, bm, hops) && point in hops
    requires forall c :: c in added ==> FreshStep(point, c, res, hops.Keys) && c in allowed
    requires AdoptedBy(bm, added, point, bm') && DeepenedBy(hops, added, hops[point] + 1, hops')
    ensures SweepTree(start, res, allowed, bm', hops')
  {
    forall c | c in hops' && c != start
      ensures bm'[c] in hops' && IsStep(bm'[c], c) && hops'[c] == hops'[bm'[c]] + 1
    {
      if c in added {
        assert bm'[c] == point && hops'[c] == hops'[point] + 1;
      } else {
        assert c in hops && bm'[c] == bm[c];
      }
    }
    forall c | InGrid(c, res) && c !in hops'
      ensures c in bm' && bm'[c] == Cell(0, 0)
    {
      assert c !in added && c in bm;
    }
  }

  /** After the expansion of `queue[0]`, every visited cell off the queue has
      its allowed grid neighbours visited: `queue[0]` because the expansion
      enqueued every such neighbour, the others as before. */
  lemma SpreadKeepsClosed(res: int, allowed: set<Cell>, hops: map<Cell, nat>, queue: seq<Cell>, added: seq<Cell>,
                          hops': map<Cell, nat>)
    requires |queue| > 0 && queue[0] in hops
    requires Expands(queue[0], res, allowed, hops.Keys, added)
    requires Closed(hops.Keys - Elements(queue), res, allowed, hops.Keys)
    requires hops'.Keys == hops.Keys + Elements(added)
    ensures Closed(hops'.Keys - Elements(queue[1..] + added), res, allowed, hops'.Keys)
  {
    var point := queue[0];
    var queue' := queue[1..] + added;
    forall c | c in hops'.Keys - Elements(queue')
      ensures NeighboursCovered(c, res, allowed, hops'.Keys)
    {
      assert c in hops;
      if c == point {
        forall k | 0 <= k < |Directions()| && InGrid(c.Plus(Directions()[k]), res) && c.Plus(Directions()[k]) in allowed
          ensures c.Plus(Directions()[k]) in hops'.Keys
        {
          var n := c.Plus(Directions()[k]);
          assert n.Minus(c) == Directions()[k];
        }
      } else {
        assert c !in Elements(queue);
        CoveredMonotone(c, res, allowed, hops.Keys, hops'.Keys);
      }
    }
  }

  /** Dequeuing `queue[0]` and enqueuing its expansion `added` keeps the
      invariant; the new cells are unvisited grid cells, so the unvisited
      part of the grid shrinks. */
  lemma SweepStep(start: Cell, res: int, allowed: set<Cell>, bm: map<Cell, Cell>, hops: map<Cell, nat>,
                  queue: seq<Cell>, added: seq<Cell>, bm': map<Cell, Cell>, hops': map<Cell, nat>, next: seq<Cell>)
    requires Sweep(start, res, allowed, bm, hops, queue) && |queue| > 0
    requires Expands(queue[0], res, allowed, hops.Keys, added)
    requires bm' == Adopt(bm, added, queue[0]) && hops' == Deepen(hops, added, hops[queue[0]] + 1)
    requires next == queue[1..] + added
    ensures Sweep(start, res, allowed, bm', hops', next)
    ensures hops'.Keys == hops.Keys + Elements(added)
  {
    var point := queue[0];
    assert hops'.Keys == hops.Keys + Elements(added);
    AdoptIsAdopted(bm, added, point);
    DeepenIsDeepened(hops, added, hops[point] + 1, hops.Keys);
    AdoptKeepsTree(start, res, allowed, bm, hops, point, added, bm', hops');
    SpreadKeepsClosed(res, allowed, hops, queue, added, hops');
    forall k | 0 <= k < |queue[1..] + added|
      ensures (queue[1..] + added)[k] in hops'
    {
      if k < |queue| - 1 {
        assert (queue[1..] + added)[k] == queue[k + 1];
      } else {
        assert (queue[1..] + added)[k] in added;
      }
    }
  }

  /** The queue after a dequeue and an expansion one level below the old head
      still runs in nondecreasing depth within one level of its head, and
      holds the old queue's tail followed by the expansion. */
  lemma LayeredQueue(start: Cell, res: int, allowed: set<Cell>, hops: map<Cell, nat>, queue: seq<Cell>,
                     added: seq<Cell>, hops': map<Cell, nat>)
    requires Layered(start, res, allowed, hops, queue) && |queue| > 0
    requires DeepenedBy(hops, added, hops[queue[0]] + 1, hops')
    ensures var next := queue[1..] + added;
      && (forall k :: 0 <= k < |next| ==> next[k] in hops' && hops[queue[0]] <= hops'[next[k]] <= hops[queue[0]] + 1)
      && (forall i, j :: 0 <= i <= j < |next| ==> hops'[next[i]] <= hops'[next[j]])
  {
    var d := hops[queue[0]];
    var next := queue[1..] + added;
    forall k | 0 <= k < |next|
      ensures next[k] in hops' && d <= hops'[next[k]] <= d + 1
      ensures k < |queue| - 1 ==> next[k] == queue[k + 1]
      ensures k >= |queue| - 1 ==> next[k] in added
    {
      if k < |queue| - 1 {
        assert next[k] == queue[k + 1];
      } else {
        assert next[k] == added[k - (|queue| - 1)];
      }
    }
  }

  /** A cell that leaves the queue after a dequeue and an expansion either
      had left it before or is the old head. */
  lemma LeftQueue(queue: seq<Cell>, added: seq<Cell>, c: Cell)
    requires |queue| > 0 && c !in queue[1..] + added
    ensures c !in added && (c in queue ==> c == queue[0])
  {
    if c in queue {
      var k :| 0 <= k < |queue| && queue[k] == c;
    }
  }

  /** After a dequeue and an expansion, every cell off the queue is no deeper
      than the new head. */
  lemma LayeredDone(start: Cell, res: int, allowed: set<Cell>, hops: map<Cell, nat>, queue: seq<Cell>,
                    added: seq<Cell>, hops': map<Cell, nat>)
    requires Layered(start, res, allowed, hops, queue) && |queue| > 0
    requires DeepenedBy(hops, added, hops[queue[0]] + 1, hops')
    requires var next := queue[1..] + added;
      forall k :: 0 <= k < |next| ==> next[k] in hops' && hops[queue[0]] <= hops'[next[k]]
    ensures var next := queue[1..] + added;
      forall c :: c in hops' && c !in next && |next| > 0 ==> hops'[c] <= hops'[next[0]]
  {
    var next := queue[1..] + added;
    forall c | c in hops' && c !in next && |next| > 0
      ensures hops'[c] <= hops'[next[0]]
    {
      LeftQueue(queue, added, c);
    }
  }

  /** After a dequeue and an expansion, the old head's allowed grid
      neighbours are visited at most one level below it, and so are those of
      every other cell off the queue. */
  lemma LayeredEdges(start: Cell, res: int, allowed: set<Cell>, hops: map<Cell, nat>, queue: seq<Cell>,
                     added: seq<Cell>, hops': map<Cell, nat>)
    requires Layered(start, res, allowed, hops, queue) && |queue| > 0
    requires Expands(queue[0], res, allowed, hops.Keys, added)
    requires DeepenedBy(hops, added, hops[queue[0]] + 1, hops')
    ensures var next := queue[1..] + added;
      forall c, n :: c in hops' && c !in next && InGrid(n, res) && n in allowed && IsStep(c, n) ==>
        n in hops' && hops'[n] <= hops'[c] + 1
  {
    var p := queue[0];
    var next := queue[1..] + added;
    forall c, n | c in hops' && c !in next && InGrid(n, res) && n in allowed && IsStep(c, n)
      ensures n in hops' && hops'[n] <= hops'[c] + 1
    {
      LeftQueue(queue, added, c);
      if c in queue {
        var t :| 0 <= t < |Directions()| && Directions()[t] == n.Minus(p);
        assert p.Plus(Directions()[t]) == n;
        if n in hops {
          if n in queue {
            var m :| 0 <= m < |queue| && queue[m] == n;
          }
        } else {
          assert n in added;
        }
      }
    }
  }

  /** Dequeuing `queue[0]` and enqueuing its expansion one level below it
      keeps the layering. */
  lemma LayeredStep(start: Cell, res: int, allowed: set<Cell>, hops: map<Cell, nat>, queue: seq<Cell>,
                    added: seq<Cell>, hops': map<Cell, nat>)
    requires Layered(start, res, allowed, hops, queue) && |queue| > 0
    requires Expands(queue[0], res, allowed, hops.Keys, added)
    requires hops' == Deepen(hops, added, hops[queue[0]] + 1)
    ensures Layered(start, res, allowed, hops', queue[1..] + added)
  {
    DeepenIsDeepened(hops, added, hops[queue[0]] + 1, hops.Keys);
    LayeredQueue(start, res, allowed, hops, queue, added, hops');
    LayeredDone(start, res, allowed, hops, queue, added, hops');
    LayeredEdges(start, res, allowed, hops, queue, added, hops');
  }

  /** Along a walk from `start` whose cells before index `k` have all left
      the queue, the cell at `k` is visited no deeper than `k`. */
  lemma {:induction false} LayeredPrefix(start: Cell, res: int, allowed: set<Cell>, hops: map<Cell, nat>,
                                         queue: seq<Cell>, w: seq<Cell>, k: nat)
    requires Layered(start, res, allowed, hops, queue)
    requires forall c :: c in allowed ==> InGrid(c, res)
    requires WalkWithin(w, start, allowed) && k < |w|
    requires forall i :: 0 <= i < k ==> w[i] !in queue
    ensures w[k] in hops && hops[w[k]] <= k
  {
    if k > 0 {
      LayeredPrefix(start, res, allowed, hops, queue, w, k - 1);
      assert IsStep(w[k - 1], w[k]) && w[k] in allowed;
    }
  }

  /** Under the layering, no walk from `start` over allowed cells reaches a
      visited cell in fewer steps than its depth. */
  lemma LayeredBound(start: Cell, res: int, allowed: set<Cell>, hops: map<Cell, nat>, queue: seq<Cell>,
                     w: seq<Cell>)
    requires Layered(start, res, allowed, hops, queue)
    requires forall c :: c in allowed ==> InGrid(c, res)
    requires WalkWithin(w, start, allowed) && w[|w| - 1] in hops
    ensures hops[w[|w| - 1]] <= |w| - 1
  {
    var m := |w| - 1;
    var j := 0;
    while j < m && w[j] !in queue
      invariant 0 <= j <= m
      invariant forall i :: 0 <= i < j ==> w[i] !in queue
    {
      j := j + 1;
    }
    LayeredPrefix(start, res, allowed, hops, queue, w, j);
    if j < m {
      var t :| 0 <= t < |queue| && queue[t] == w[j];
      assert hops[queue[0]] <= hops[w[j]];
      if w[m] in queue {
        var u :| 0 <= u < |queue| && queue[u] == w[m];
      }
    }
  }

  /** An expansion that enqueues something visits a new grid cell; one that
      enqueues nothing visits none. */
  lemma SweepProgress(res: int, hops: map<Cell, nat>, added: seq<Cell>, hops': map<Cell, nat>)
    requires hops'.Keys == hops.Keys + Elements(added)
    requires forall c :: c in added ==> InGrid(c, res) && c !in hops
    ensures |added| > 0 ==> RectCells(res, res) - hops'.Keys < RectCells(res, res) - hops.Keys
    ensures |added| == 0 ==> hops'.Keys == hops.Keys
  {
    if |added| > 0 {
      var c := added[0];
      assert c in added;
      assert InRect(c, res, res) && c in RectCells(res, res);
      assert c in hops'.Keys && c !in hops.Keys;
    }
  }

  /** When the queue runs dry every cell of a table walk from `start` through
      `allowed` grid cells has been visited. */
  lemma SweepReaches(start: Cell, res: int, allowed: set<Cell>, bm: map<Cell, Cell>, hops: map<Cell, nat>,
                     walk: seq<Cell>)
    requires Sweep(start, res, allowed, bm, hops, [])
    requires |walk| >= 1 && walk[0] == start && IsWalk(walk)
    requires forall k :: 0 <= k < |walk| ==> InGrid(walk[k], res) && walk[k] in allowed
    ensures walk[|walk| - 1] in hops
  {
    assert hops.Keys - Elements([]) == hops.Keys;
    WalkStaysInside(walk, res, allowed, hops.Keys, |walk| - 1);
  }

  /** The ranking for the back-walk over the whole grid: a visited cell ranks
      by its depth, the unvisited `(0,0)` (its own default predecessor) ranks
      0, and every other unvisited cell, whose predecessor is `(0,0)`, ranks
      one above `(0,0)`. */
  ghost function SweepRank(res: int, hops: map<Cell, nat>): map<Cell, nat>
  {
    var r0 := if Cell(0, 0) in hops then hops[Cell(0, 0)] else 0;
    map c | c in RectCells(res, res) :: if c in hops then hops[c] else if c == Cell(0, 0) then 0 else r0 + 1
  }

  /** The predecessor array of the search carries its tree, every unvisited
      grid cell has the default predecessor `(0,0)`, and so the only fixed
      points are `start` and, when unvisited, `(0,0)`. */
  lemma SweepArray(before: array2<Cell>, start: Cell, res: int, allowed: set<Cell>, bm: map<Cell, Cell>,
                   hops: map<Cell, nat>)
    requires SweepTree(start, res, allowed, bm, hops) && Mirrors(before, res, bm)
    ensures SearchTree(before, hops, start)
    ensures forall c :: InGrid(c, res) && c !in hops ==> before[c.x, c.y] == Cell(0, 0)
    ensures forall c :: InGrid(c, res) && before[c.x, c.y] == c ==> c == start || c == Cell(0, 0)
  {
    TreeOfArray(before, res, bm, hops, start);
    TreeIsRanked(before, hops, start);
  }

  /** What the search leaves behind once the queue is empty or has the
      target `raw[|raw| - 1]` at its head: the predecessor array is a search
      tree over visited cells of `raw`, and the target is visited whenever
      `raw` is a table walk or starts where it ends. */
  lemma SweepOutcome(before: array2<Cell>, raw: seq<Cell>, res: int, bm: map<Cell, Cell>,
                     hops: map<Cell, nat>, queue: seq<Cell>)
    requires |raw| >= 1 && forall k :: 0 <= k < |raw| ==> InGrid(raw[k], res)
    requires Sweep(raw[0], res, Elements(raw), bm, hops, queue) && Mirrors(before, res, bm)
    requires |queue| == 0 || queue[0] == raw[|raw| - 1]
    ensures SearchTree(before, hops, raw[0])
    ensures forall c :: c in hops ==> c in raw
    ensures forall c :: InGrid(c, res) && c !in hops ==> before[c.x, c.y] == Cell(0, 0)
    ensures forall c :: InGrid(c, res) && before[c.x, c.y] == c ==> c == raw[0] || c == Cell(0, 0)
    ensures IsWalk(raw) || raw[0] == raw[|raw| - 1] ==> raw[|raw| - 1] in hops
  {
    if |queue| == 0 && IsWalk(raw) {
      SweepReaches(raw[0], res, Elements(raw), bm, hops, raw);
    }
    SweepArray(before, raw[0], res, Elements(raw), bm, hops);
  }

  /** `SweepRank` ranks the predecessor array over the whole grid, agreeing
      with the depths on the visited cells. */
  lemma SweepIsRanked(before: array2<Cell>, start: Cell, res: int, hops: map<Cell, nat>)
    requires SearchTree(before, hops, start) && before.Length0 == res && before.Length1 == res
    requires forall c :: InGrid(c, res) && c !in hops ==> before[c.x, c.y] == Cell(0, 0)
    ensures Ranked(before, SweepRank(res, hops))
    ensures forall c :: InGrid(c, res) <==> c in SweepRank(res, hops)
    ensures forall c :: c in hops ==> SweepRank(res, hops)[c] == hops[c]
  {
    TreeIsRanked(before, hops, start);
    var rank := SweepRank(res, hops);
    assert InGrid(start, res);
    assert InGrid(Cell(0, 0), res);
    forall c | c in rank
      ensures before[c.x, c.y] in rank && (before[c.x, c.y] == c || rank[before[c.x, c.y]] < rank[c])
    {
      if c !in hops {
        assert before[c.x, c.y] == Cell(0, 0);
      }
    }
  }
}
