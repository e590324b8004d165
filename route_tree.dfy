/** Facts about the predecessor arrays (`Vector2Int[,] before`) that the
    terrain route search builds and `Backtrack` follows, and about the grid
    graph whose edges are the offsets of the direction table. */
module RouteTree {
  import opened Grid
  import opened RouteCost
  import opened MinQueue

  /** Queue item of the cost search: a cell and the colour its relaxation
      gave it (the source packs both into a `Vector3Int`). */
  datatype Visit = Visit(cell: Cell, color: int)

  function CellsOf(q: seq<Entry<Visit>>): (s: set<Cell>)
    ensures forall k :: 0 <= k < |q| ==> q[k].item.cell in s
  {
    set e | e in q :: e.item.cell
  }

  lemma CellsOfRemoveAt(q: seq<Entry<Visit>>, i: nat)
    requires i < |q|
    ensures CellsOf(q) <= CellsOf(RemoveAt(q, i)) + {q[i].item.cell}
  {
    forall c | c in CellsOf(q) ensures c in CellsOf(RemoveAt(q, i)) + {q[i].item.cell} {
      var k :| 0 <= k < |q| && q[k].item.cell == c;
      if k < i {
        assert RemoveAt(q, i)[k] == q[k];
      } else if k > i {
        assert RemoveAt(q, i)[k - 1] == q[k];
      }
    }
  }

  lemma CellsOfAppend(q: seq<Entry<Visit>>, r: seq<Entry<Visit>>)
    ensures CellsOf(q + r) == CellsOf(q) + CellsOf(r)
  {
    assert forall e :: e in q + r <==> e in q || e in r;
  }

  /** Every table neighbour of `c` that lies in the grid and in `allowed` is in `seen`. */
  ghost predicate NeighboursCovered(c: Cell, res: int, allowed: set<Cell>, seen: set<Cell>)
  {
    forall k :: 0 <= k < |Directions()| ==>
      InGrid(c.Plus(Directions()[k]), res) && c.Plus(Directions()[k]) in allowed ==>
        c.Plus(Directions()[k]) in seen
  }

  /** Every grid neighbour (inside `allowed`) of a cell of `cells` is in `seen`. */
  ghost predicate Closed(cells: set<Cell>, res: int, allowed: set<Cell>, seen: set<Cell>)
  {
    forall c {:trigger NeighboursCovered(c, res, allowed, seen)} :: c in cells ==> NeighboursCovered(c, res, allowed, seen)
  }

  lemma CoveredMonotone(c: Cell, res: int, allowed: set<Cell>, seen: set<Cell>, seen': set<Cell>)
    requires NeighboursCovered(c, res, allowed, seen) && seen <= seen'
    ensures NeighboursCovered(c, res, allowed, seen')
  {
  }

  /** One axis move from `a` toward `b`, which the table always offers. */
  function TowardStep(a: Cell, b: Cell): (k: nat)
    requires a != b
    ensures k < |Directions()|
    ensures Manhattan(a.Plus(Directions()[k]), b) + 1 == Manhattan(a, b)
    ensures Directions()[k].x == 0 || Directions()[k].y == 0
  {
    var d := Directions();
    assert d[0] == Cell(0, 1) && d[1] == Cell(0, -1) && d[2] == Cell(1, 0) && d[3] == Cell(-1, 0);
    if a.x < b.x then 2 else if a.x > b.x then 3 else if a.y < b.y then 0 else 1
  }

  /** The grid is connected under the table's offsets: a set of grid cells that
      holds `a` and every grid neighbour of its members holds every grid cell. */
  lemma {:induction false} GridConnected(s: set<Cell>, res: int, allowed: set<Cell>, a: Cell, b: Cell)
    requires InGrid(a, res) && InGrid(b, res) && a in s
    requires RectCells(res, res) <= allowed
    requires Closed(s, res, allowed, s)
    ensures b in s
    decreases Manhattan(a, b)
  {
    if a != b {
      var k := TowardStep(a, b);
      var n := a.Plus(Directions()[k]);
      assert InGrid(n, res);
      assert NeighboursCovered(a, res, allowed, s);
      assert n in s;
      GridConnected(s, res, allowed, n, b);
    }
  }

  /** A table walk that starts in a set closed under steps inside `allowed`
      stays in that set, as long as the walk's cells are allowed grid cells. */
  lemma {:induction false} WalkStaysInside(walk: seq<Cell>, res: int, allowed: set<Cell>, s: set<Cell>, i: nat)
    requires |walk| >= 1 && IsWalk(walk) && walk[0] in s && i < |walk|
    requires forall k :: 0 <= k < |walk| ==> InGrid(walk[k], res) && walk[k] in allowed
    requires Closed(s, res, allowed, s)
    ensures walk[i] in s
  {
    if i > 0 {
      WalkStaysInside(walk, res, allowed, s, i - 1);
      var p := walk[i - 1];
      assert IsStep(p, walk[i]);
      var d := Directions();
      var k :| 0 <= k < |d| && d[k] == walk[i].Minus(p);
      assert p.Plus(d[k]) == walk[i];
      assert NeighboursCovered(p, res, allowed, s);
    }
  }

  /** The parent chains of `before` restricted to `rank` end in a fixed point:
      every ranked cell's parent is ranked, and lower unless it is the cell itself. */
  ghost predicate Ranked(before: array2<Cell>, rank: map<Cell, nat>)
    reads before
  {
    && (forall c :: c in rank ==> InRect(c, before.Length0, before.Length1))
    && forall c {:trigger before[c.x, c.y]} :: c in rank ==>
      before[c.x, c.y] in rank &&
      (before[c.x, c.y] == c || rank[before[c.x, c.y]] < rank[c])
  }

  /** `before` restricted to `hops` is a tree of table steps rooted at `start`,
      its own parent, in which each cell is one hop further than its parent. */
  ghost predicate SearchTree(before: array2<Cell>, hops: map<Cell, nat>, start: Cell)
    reads before
  {
    && start in hops
    && InRect(start, before.Length0, before.Length1)
    && before[start.x, start.y] == start
    && (forall c :: c in hops ==> InRect(c, before.Length0, before.Length1))
    && forall c {:trigger before[c.x, c.y]} :: c in hops && c != start ==>
      before[c.x, c.y] in hops && IsStep(before[c.x, c.y], c) &&
      hops[c] == hops[before[c.x, c.y]] + 1
  }

  /** In a search tree the root is the only fixed point, so the parent chains
      are ranked by hop count. */
  lemma TreeIsRanked(before: array2<Cell>, hops: map<Cell, nat>, start: Cell)
    requires SearchTree(before, hops, start)
    ensures Ranked(before, hops)
    ensures forall c :: c in hops && before[c.x, c.y] == c ==> c == start
  {
    forall c | c in hops && c != start
      ensures before[c.x, c.y] != c
    {
      StepIsKingMove(before[c.x, c.y], c);
    }
  }

  // ---------------------------------------------------------------------------
  // The cost search's loop invariant, over ghost values

  /** `c` is an unvisited grid cell one table step from `top`. */
  predicate FreshStep(top: Cell, c: Cell, res: int, seen: set<Cell>)
  {
    InGrid(c, res) && IsStep(top, c) && c !in seen
  }

  /** The predecessor map `bm` restricted to `hops` is a tree of table steps
      rooted at `start`, each cell one hop further than its parent. */
  ghost predicate MapTree(bm: map<Cell, Cell>, hops: map<Cell, nat>, start: Cell)
  {
    && start in hops && start in bm && bm[start] == start
    && (forall c :: c in hops ==> c in bm)
    && forall c {:trigger bm[c]} :: c in hops && c != start ==>
      bm[c] in hops && IsStep(bm[c], c) && hops[c] == hops[bm[c]] + 1
  }

  /** What holds at the head of the search loop: `bm` is the predecessor grid,
      `hops` the visited cells with their distance counters, `order` the visit
      order, `pq` the queue. */
  ghost predicate Frontier(start: Cell, end: Cell, res: int, bm: map<Cell, Cell>, pq: seq<Entry<Visit>>,
                           hops: map<Cell, nat>, order: seq<Cell>)
  {
    && InGrid(start, res)
    && (forall c :: InGrid(c, res) ==> c in bm)
    && bm[start] == start
    && (forall c :: c in hops ==> InGrid(c, res))
    && (forall e :: e in pq ==> InGrid(e.item.cell, res))
    && (forall e :: e in pq && e.item.cell != start ==>
          bm[e.item.cell] in hops && IsStep(bm[e.item.cell], e.item.cell))
    && (start !in hops ==> hops == map[] && order == [] && pq == [Entry(Visit(start, 0), 0)])
    && (start in hops ==> MapTree(bm, hops, start) && hops[start] == 1)
    && Distinct(order) && (forall c :: c in hops <==> c in order) && (|order| > 0 ==> order[0] == start)
    && end !in hops
    && Closed(hops.Keys, res, RectCells(res, res), hops.Keys + CellsOf(pq))
  }

  lemma FrontierStart(start: Cell, end: Cell, res: int, bm: map<Cell, Cell>)
    requires InGrid(start, res)
    requires forall c :: InGrid(c, res) ==> c in bm
    requires bm[start] == start
    ensures Frontier(start, end, res, bm, [Entry(Visit(start, 0), 0)], map[], [])
  {
  }

  /** Dequeuing an entry of an already visited cell keeps the invariant. */
  lemma FrontierSkip(start: Cell, end: Cell, res: int, bm: map<Cell, Cell>, pq: seq<Entry<Visit>>,
                     hops: map<Cell, nat>, order: seq<Cell>, i: nat)
    requires Frontier(start, end, res, bm, pq, hops, order)
    requires i < |pq| && pq[i].item.cell in hops
    ensures Frontier(start, end, res, bm, RemoveAt(pq, i), hops, order)
  {
    var pq' := RemoveAt(pq, i);
    CellsOfRemoveAt(pq, i);
    forall c | c in hops
      ensures NeighboursCovered(c, res, RectCells(res, res), hops.Keys + CellsOf(pq'))
    {
      CoveredMonotone(c, res, RectCells(res, res), hops.Keys + CellsOf(pq), hops.Keys + CellsOf(pq'));
    }
  }

  /** Visiting the unvisited cell of a dequeued entry: the tree grows by that
      cell, with a distance one more than its parent's (1 for `start`). */
  lemma FrontierVisitTree(start: Cell, end: Cell, res: int, bm: map<Cell, Cell>, pq: seq<Entry<Visit>>,
                          hops: map<Cell, nat>, order: seq<Cell>, i: nat, d: nat)
    requires Frontier(start, end, res, bm, pq, hops, order)
    requires i < |pq| && pq[i].item.cell !in hops
    requires d == if pq[i].item.cell == start then 1 else hops[bm[pq[i].item.cell]] + 1
    ensures var top := pq[i].item.cell;
      && MapTree(bm, hops[top := d], start) && hops[top := d][start] == 1
      && Distinct(order + [top]) && (forall c :: c in hops[top := d] <==> c in order + [top])
      && (order + [top])[0] == start
  {
    var top := pq[i].item.cell;
    assert pq[i] in pq;
    if start !in hops {
      assert top == start;
    }
  }

  /** What a relaxation of `top` must do for the invariant to survive: keep the
      predecessor map's domain, point exactly the fresh neighbours at `top`,
      and enqueue fresh neighbours only, every one the table reaches. */
  ghost predicate RelaxedBy(top: Cell, res: int, seen: set<Cell>, bm: map<Cell, Cell>, bm': map<Cell, Cell>,
                            added: seq<Entry<Visit>>)
  {
    && (forall c :: c in bm' <==> c in bm)
    && (forall c :: c in bm ==> bm'[c] == if FreshStep(top, c, res, seen) then top else bm[c])
    && (forall e :: e in added ==> FreshStep(top, e.item.cell, res, seen))
    && (forall k :: 0 <= k < |Directions()| && FreshStep(top, top.Plus(Directions()[k]), res, seen) ==>
          top.Plus(Directions()[k]) in CellsOf(added))
  }

  lemma RelaxKeepsTree(start: Cell, top: Cell, res: int, bm: map<Cell, Cell>, bm': map<Cell, Cell>,
                       added: seq<Entry<Visit>>, hops': map<Cell, nat>)
    requires MapTree(bm, hops', start) && top in hops'
    requires RelaxedBy(top, res, hops'.Keys, bm, bm', added)
    ensures MapTree(bm', hops', start)
  {
    forall c | c in hops'
      ensures c in bm' && (c != start ==> bm'[c] in hops' && IsStep(bm'[c], c) && hops'[c] == hops'[bm'[c]] + 1)
    {
      assert !FreshStep(top, c, res, hops'.Keys);
    }
  }

  lemma RelaxKeepsQueue(start: Cell, top: Cell, res: int, bm: map<Cell, Cell>, bm': map<Cell, Cell>,
                        added: seq<Entry<Visit>>, hops: map<Cell, nat>, hops': map<Cell, nat>, rest: seq<Entry<Visit>>)
    requires top in hops' && hops.Keys <= hops'.Keys
    requires forall c :: InGrid(c, res) ==> c in bm
    requires forall e :: e in rest ==> InGrid(e.item.cell, res)
    requires forall e :: e in rest && e.item.cell != start ==> bm[e.item.cell] in hops && IsStep(bm[e.item.cell], e.item.cell)
    requires RelaxedBy(top, res, hops'.Keys, bm, bm', added)
    ensures forall e :: e in rest + added ==> InGrid(e.item.cell, res)
    ensures forall e :: e in rest + added && e.item.cell != start ==>
      bm'[e.item.cell] in hops' && IsStep(bm'[e.item.cell], e.item.cell)
  {
    forall e | e in rest + added
      ensures InGrid(e.item.cell, res)
      ensures e.item.cell != start ==> bm'[e.item.cell] in hops' && IsStep(bm'[e.item.cell], e.item.cell)
    {
      if e in added {
        assert FreshStep(top, e.item.cell, res, hops'.Keys);
      } else {
        assert e in rest;
      }
    }
  }

  lemma RelaxKeepsClosure(top: Cell, res: int, bm: map<Cell, Cell>, bm': map<Cell, Cell>, added: seq<Entry<Visit>>,
                          hops: map<Cell, nat>, hops': map<Cell, nat>, pq: seq<Entry<Visit>>, rest: seq<Entry<Visit>>)
    requires hops'.Keys == hops.Keys + {top}
    requires CellsOf(pq) <= CellsOf(rest) + {top}
    requires Closed(hops.Keys, res, RectCells(res, res), hops.Keys + CellsOf(pq))
    requires RelaxedBy(top, res, hops'.Keys, bm, bm', added)
    ensures Closed(hops'.Keys, res, RectCells(res, res), hops'.Keys + CellsOf(rest + added))
  {
    CellsOfAppend(rest, added);
    forall c | c in hops'
      ensures NeighboursCovered(c, res, RectCells(res, res), hops'.Keys + CellsOf(rest + added))
    {
      if c == top {
        forall k | 0 <= k < |Directions()| && InGrid(top.Plus(Directions()[k]), res)
          ensures top.Plus(Directions()[k]) in hops'.Keys + CellsOf(rest + added)
        {
          var n := top.Plus(Directions()[k]);
          assert n.Minus(top) == Directions()[k];
          if n !in hops'.Keys {
            assert FreshStep(top, n, res, hops'.Keys);
          }
        }
      } else {
        CoveredMonotone(c, res, RectCells(res, res), hops.Keys + CellsOf(pq), hops'.Keys + CellsOf(rest + added));
      }
    }
  }

  /** Visiting the cell of a dequeued entry and relaxing its neighbours keeps
      the invariant. */
  lemma FrontierVisit(start: Cell, end: Cell, res: int, bm: map<Cell, Cell>, pq: seq<Entry<Visit>>,
                      hops: map<Cell, nat>, order: seq<Cell>, i: nat, d: nat,
                      bm': map<Cell, Cell>, added: seq<Entry<Visit>>, hops': map<Cell, nat>)
    requires Frontier(start, end, res, bm, pq, hops, order)
    requires i < |pq| && pq[i].item.cell !in hops && pq[i].item.cell != end
    requires d == if pq[i].item.cell == start then 1 else hops[bm[pq[i].item.cell]] + 1
    requires hops' == hops[pq[i].item.cell := d]
    requires RelaxedBy(pq[i].item.cell, res, hops'.Keys, bm, bm', added)
    ensures Frontier(start, end, res, bm', RemoveAt(pq, i) + added, hops', order + [pq[i].item.cell])
  {
    var top := pq[i].item.cell;
    var rest := RemoveAt(pq, i);
    assert pq[i] in pq;
    assert hops'.Keys == hops.Keys + {top};
    FrontierVisitTree(start, end, res, bm, pq, hops, order, i, d);
    RelaxKeepsTree(start, top, res, bm, bm', added, hops');
    CellsOfRemoveAt(pq, i);
    RelaxKeepsQueue(start, top, res, bm, bm', added, hops, hops', rest);
    RelaxKeepsClosure(top, res, bm, bm', added, hops, hops', pq, rest);
  }

  /** With the queue empty every grid cell has been visited: the visited set
      is closed under the table's moves, and those connect the grid. */
  lemma FrontierDone(start: Cell, end: Cell, res: int, bm: map<Cell, Cell>, hops: map<Cell, nat>, order: seq<Cell>)
    requires Frontier(start, end, res, bm, [], hops, order)
    ensures forall c :: InGrid(c, res) ==> c in hops
    ensures !InGrid(end, res)
  {
    assert CellsOf([]) == {};
    assert hops.Keys + CellsOf([]) == hops.Keys;
    forall c | InGrid(c, res)
      ensures c in hops
    {
      GridConnected(hops.Keys, res, RectCells(res, res), start, c);
    }
  }

  /** The predecessor array holds, on every grid cell, what the ghost map `bm` holds. */
  ghost predicate Mirrors(before: array2<Cell>, res: int, bm: map<Cell, Cell>)
    reads before
  {
    && before.Length0 == res && before.Length1 == res
    && (forall c :: InGrid(c, res) ==> c in bm)
    && forall c {:trigger before[c.x, c.y]} :: InGrid(c, res) ==> before[c.x, c.y] == bm[c]
  }

  /** `bm` after `top` claims every fresh neighbour as its predecessor. */
  ghost function Redirect(top: Cell, res: int, seen: set<Cell>, bm: map<Cell, Cell>): map<Cell, Cell>
  {
    map c | c in bm :: if FreshStep(top, c, res, seen) then top else bm[c]
  }

  /** An array that holds `top` on the cells `added` names and `bm` elsewhere
      mirrors `Redirect`, when `added` names exactly the fresh steps. */
  lemma MirrorsRedirect(before: array2<Cell>, top: Cell, res: int, seen: set<Cell>, bm: map<Cell, Cell>,
                        added: seq<Entry<Visit>>)
    requires before.Length0 == res && before.Length1 == res
    requires forall c :: InGrid(c, res) ==> c in bm
    requires forall c :: FreshStep(top, c, res, seen) <==> c in CellsOf(added)
    requires forall c :: InGrid(c, res) ==> before[c.x, c.y] == if c in CellsOf(added) then top else bm[c]
    ensures Mirrors(before, res, Redirect(top, res, seen, bm))
  {
  }

  /** `Redirect` is the predecessor update a relaxation that enqueues `added` performs. */
  lemma RedirectIsRelaxed(top: Cell, res: int, seen: set<Cell>, bm: map<Cell, Cell>, added: seq<Entry<Visit>>)
    requires forall e :: e in added ==> FreshStep(top, e.item.cell, res, seen)
    requires forall k :: 0 <= k < |Directions()| && FreshStep(top, top.Plus(Directions()[k]), res, seen) ==>
      top.Plus(Directions()[k]) in CellsOf(added)
    ensures RelaxedBy(top, res, seen, bm, Redirect(top, res, seen, bm), added)
  {
  }

  /** A predecessor array that agrees with `bm` on the grid carries its tree. */
  lemma TreeOfArray(before: array2<Cell>, res: int, bm: map<Cell, Cell>, hops: map<Cell, nat>, start: Cell)
    requires Mirrors(before, res, bm)
    requires forall c :: c in hops ==> InGrid(c, res)
    requires MapTree(bm, hops, start)
    ensures SearchTree(before, hops, start)
  {
  }

  /** Walking `path` from its last cell down the tree: every cell is in the
      tree, one hop below the next, and a table step away from it. */
  lemma {:induction false} TreeChain(before: array2<Cell>, hops: map<Cell, nat>, start: Cell,
                                     rank: map<Cell, nat>, path: seq<Cell>, k: nat)
    requires SearchTree(before, hops, start) && Ranked(before, rank)
    requires |path| >= 2 && path[|path| - 1] in hops && path[|path| - 1] != start && k < |path|
    requires forall i :: 0 <= i < |path| ==> path[i] in rank
    requires forall i, j :: 0 <= i && j == i + 1 < |path| ==> path[i] == before[path[j].x, path[j].y]
    requires forall i, j :: 0 <= i && j == i + 1 < |path| - 1 ==> rank[path[i]] < rank[path[j]]
    requires rank[path[|path| - 2]] < rank[path[|path| - 1]]
    ensures forall i :: k <= i < |path| ==>
      path[i] in hops && hops[path[i]] + (|path| - 1 - i) == hops[path[|path| - 1]]
    ensures forall i :: k <= i < |path| - 1 ==> IsStep(path[i], path[i + 1])
    decreases |path| - k
  {
    if k < |path| - 1 {
      TreeChain(before, hops, start, rank, path, k + 1);
      var c := path[k + 1];
      assert path[k] == before[c.x, c.y];
      assert rank[path[k]] < rank[c];
    }
  }

  /** The route `Backtrack` returns from a tree cell other than the root climbs
      the tree from the root: it starts at `start`, every neighbouring pair is a
      table step, no cell repeats, and every cell is in the tree. */
  lemma TreeRoute(before: array2<Cell>, hops: map<Cell, nat>, start: Cell, rank: map<Cell, nat>, path: seq<Cell>)
    requires SearchTree(before, hops, start) && Ranked(before, rank)
    requires |path| >= 2 && path[|path| - 1] in hops && path[|path| - 1] != start
    requires forall i :: 0 <= i < |path| ==> path[i] in rank
    requires before[path[0].x, path[0].y] == path[0]
    requires forall i, j :: 0 <= i && j == i + 1 < |path| ==> path[i] == before[path[j].x, path[j].y]
    requires forall i, j :: 0 <= i && j == i + 1 < |path| - 1 ==> rank[path[i]] < rank[path[j]]
    requires rank[path[|path| - 2]] < rank[path[|path| - 1]]
    ensures path[0] == start && IsWalk(path) && Distinct(path)
    ensures forall i :: 0 <= i < |path| ==> path[i] in hops
    ensures hops[start] + |path| - 1 == hops[path[|path| - 1]]
  {
    TreeChain(before, hops, start, rank, path, 0);
    TreeIsRanked(before, hops, start);
    assert path[0] in hops;
  }
}
