/** The A*-style grid search: frontier selection, neighbour relaxation,
    parent bookkeeping and path reconstruction. */
module PathFinding {
  import opened Tiles

  /** Per-node search record: `g` is meant as the distance from the start,
      `h` the heuristic distance to the goal. */
  datatype NodeData = NodeData(g: real, h: real) {
    function F(): (f: real) { g + h }
  }

  /** `s` read back to front. */
  function Reverse<T>(s: seq<T>): (r: seq<T>)
    ensures |r| == |s|
    ensures forall i :: 0 <= i < |s| ==> r[i] == s[|s| - 1 - i]
  {
    if s == [] then [] else [s[|s| - 1]] + Reverse(s[..|s| - 1])
  }

  lemma {:induction false} ReverseSnoc<T>(s: seq<T>, x: T)
    ensures Reverse(s + [x]) == [x] + Reverse(s)
  {
    assert (s + [x])[..|s|] == s;
  }

  /** Each tile of `path` is one of the eight neighbours of the one before
      it, the first one of `from`. */
  predicate IsWalk(from: Pos, path: seq<TileNav>)
  {
    && (path != [] ==> Adjacent(from, path[0].position))
    && forall i :: 0 < i < |path| ==> Adjacent(path[i - 1].position, path[i].position)
  }

  /** Sum of the step costs of walking `path` from `from`. */
  function WalkCost(from: Pos, path: seq<TileNav>): (cost: real)
    decreases |path|
  {
    if path == [] then 0.0 else StepCost(Delta(from, path[0].position)) + WalkCost(path[0].position, path[1..])
  }

  /** No position occurs twice in `path`. */
  predicate DistinctPositions(path: seq<TileNav>)
  {
    forall i, j :: 0 <= i < j < |path| ==> path[i].position != path[j].position
  }

  /** Picks the frontier entry with the least f, as a left fold over the
      entries that keeps the accumulated entry only when it is strictly
      smaller (so on ties the entry met later wins). Entries are met in
      an unspecified order. */
  method SelectMinimal(open: map<Pos, NodeData>) returns (best: Pos)
    requires open != map[]
    ensures best in open
    ensures forall q :: q in open ==> open[best].F() <= open[q].F()
  {
    var todo := open.Keys;
    best :| best in todo;
    todo := todo - {best};
    while todo != {}
      invariant todo <= open.Keys
      invariant best in open
      invariant forall q :: q in open && q !in todo ==> open[best].F() <= open[q].F()
      decreases |todo|
    {
      var r :| r in todo;
      if !(open[best].F() < open[r].F()) {
        best := r;
      }
      todo := todo - {r};
    }
  }

  /** A neighbour reached from a node whose g is `currentG` over a step of
      `cost` gets a new entry when it is not closed and either has no
      entry yet or its recorded g exceeds `currentG + cost`. */
  predicate Improves(open: map<Pos, NodeData>, closed: set<Pos>, currentG: real, q: Pos, cost: real)
  {
    q !in closed && (q !in open || open[q].g > currentG + cost)
  }

  /** `q` is one of `neighbours` and the pass over them rewrites its entry. */
  predicate Relaxes(open: map<Pos, NodeData>, closed: set<Pos>, currentG: real, neighbours: map<Pos, real>, q: Pos)
  {
    q in neighbours && Improves(open, closed, currentG, q, neighbours[q])
  }

  /** The parent links after a pass over the neighbours of `current`: each
      neighbour whose entry is rewritten gets `current` as its parent, and
      no other link changes. */
  function RelaxedDirs(dirs: map<Pos, Pos>, open: map<Pos, NodeData>, closed: set<Pos>, currentG: real,
                       neighbours: map<Pos, real>, current: Pos): (dirs': map<Pos, Pos>)
  {
    map q | q in dirs.Keys + neighbours.Keys && (q in dirs || Relaxes(open, closed, currentG, neighbours, q)) ::
      if Relaxes(open, closed, currentG, neighbours, q) then current else dirs[q]
  }

  /** Taking one more neighbour `q`, with step cost `c`, into the pass
      rewrites its parent link to `current` exactly when the step improves
      on `q`'s entry, which the pass so far (`openNow`) has left as it was. */
  lemma RelaxedDirsStep(dirs: map<Pos, Pos>, open: map<Pos, NodeData>, openNow: map<Pos, NodeData>,
                        closed: set<Pos>, currentG: real, done: map<Pos, real>, q: Pos, c: real, current: Pos)
    requires q !in done
    requires (q in openNow <==> q in open) && (q in open ==> openNow[q] == open[q])
    ensures var before := RelaxedDirs(dirs, open, closed, currentG, done, current);
            RelaxedDirs(dirs, open, closed, currentG, done[q := c], current)
            == if Improves(openNow, closed, currentG, q, c) then before[q := current] else before
  {
    var before := RelaxedDirs(dirs, open, closed, currentG, done, current);
    var after := RelaxedDirs(dirs, open, closed, currentG, done[q := c], current);
    if Improves(open, closed, currentG, q, c) {
      assert after == before[q := current];
    } else {
      assert after == before;
    }
  }

  /** The search over a fixed map of tiles, with its iteration budget. */
  class PathFinder {
    var calculatorPatience: int
    const tileMap: map<Pos, TileNav>
    /** Vector3Int.Distance, the Euclidean distance of two positions. */
    const distance: (Pos, Pos) -> real

    constructor (tileMap: map<Pos, TileNav>, distance: (Pos, Pos) -> real)
      ensures this.tileMap == tileMap && this.distance == distance
      ensures calculatorPatience == 1000
    {
      this.tileMap := tileMap;
      this.distance := distance;
      calculatorPatience := 1000;
    }

    /** Every tile is stored under its own position, as the map builder
        does. */
    predicate KeyedByPosition()
    {
      forall p :: p in tileMap ==> tileMap[p].position == p
    }

    /** Walkability of the tile stored at `p`, if any. */
    predicate WalkableAt(p: Pos)
      reads tileMap.Values
    {
      p in tileMap && tileMap[p].isWalkable
    }

    /** The tile at `position`, or null when there is none. */
    function GetTileAtPosition(position: Pos): (tile: TileNav?)
      ensures tile == null <==> position !in tileMap
      ensures tile != null ==> tile == tileMap[position]
      ensures tile != null && KeyedByPosition() ==> tile.position == position
    {
      if position in tileMap then tileMap[position] else null
    }

    /** The walkable neighbours of `currentTile` with the cost of the step
        to each, keyed by position as the dictionary of tiles is. */
    method GetNeighboursAndStepCosts(currentTile: TileNav) returns (neighbours: map<Pos, real>)
      ensures forall q :: q in neighbours <==> Adjacent(currentTile.position, q) && WalkableAt(q)
      ensures forall q :: q in neighbours ==> neighbours[q] == StepCost(Delta(currentTile.position, q))
      ensures |neighbours| <= |Directions|
    {
      var c := currentTile.position;
      neighbours := map[];
      for i := 0 to |Directions|
        invariant forall q :: q in neighbours <==> DirectionIndex(Delta(c, q)) < i && WalkableAt(q)
        invariant forall q :: q in neighbours ==> neighbours[q] == StepCost(Delta(c, q))
        invariant |neighbours| <= i
      {
        var direction := Directions[i];
        var neighbour := GetTileAtPosition(Add(c, direction));
        DirectionIndexOfDirection(i);
        assert Delta(c, Add(c, direction)) == direction;
        assert forall q :: DirectionIndex(Delta(c, q)) == i ==> q == Add(c, direction);
        assert neighbour != null && neighbour.isWalkable <==> WalkableAt(Add(c, direction));
        if neighbour != null && neighbour.isWalkable {
          var cost := StepCost(direction);
          // The dictionary's Add would throw on a repeated key; none occurs.
          assert Add(c, direction) !in neighbours;
          neighbours := neighbours[Add(c, direction) := cost];
        }
      }
      forall q | true
        ensures Adjacent(c, q) <==> DirectionIndex(Delta(c, q)) < |Directions|
      {
        AdjacentIffDirection(c, q);
      }
    }

    /** The walkable stored cells one move from `c`, each with the cost of
        that move: what GetNeighboursAndStepCosts computes. */
    ghost function NeighbourSteps(c: Pos): map<Pos, real>
      reads tileMap.Values
    {
      map q | q in tileMap && Adjacent(c, q) && WalkableAt(q) :: StepCost(Delta(c, q))
    }

    /** A map holding exactly the walkable cells around `c`, each with the
        cost of its move, is NeighbourSteps(c). */
    lemma NeighbourStepsUnique(c: Pos, neighbours: map<Pos, real>)
      requires forall q :: q in neighbours <==> Adjacent(c, q) && WalkableAt(q)
      requires forall q :: q in neighbours ==> neighbours[q] == StepCost(Delta(c, q))
      ensures neighbours == NeighbourSteps(c)
    {
    }

    /** The straight-line distance between the two tiles' positions. */
    function GetHeuristicDistance(start: TileNav, end: TileNav): (d: real)
    {
      distance(start.position, end.position)
    }

    /** The heuristic sees only positions: tiles equal to the given ones
        give the same distance, whatever their walkability and cost. */
    lemma HeuristicOfEqualTiles(start: TileNav, end: TileNav, start': TileNav, end': TileNav)
      requires start.Equals(start') && end.Equals(end')
      ensures GetHeuristicDistance(start, end) == GetHeuristicDistance(start', end')
    {
      EqualsIsPositionEquality(start, start');
      EqualsIsPositionEquality(end, end');
    }

    /** The record written for a neighbour at `q`: as the source writes it,
        both g and h are the heuristic distance to the goal; with
        `accumulate`, g is the tentative distance from the start instead. */
    function Written(q: Pos, endNode: TileNav, tentativeG: real, accumulate: bool): (record: NodeData)
    {
      var h := distance(q, endNode.position);
      NodeData(if accumulate then tentativeG else h, h)
    }

    /** The frontier after a pass over the neighbours of the node expanded
        with g `currentG`: each neighbour whose entry is rewritten gets
        Written's record, every other entry is kept. */
    function RelaxedOpen(open: map<Pos, NodeData>, closed: set<Pos>, currentG: real,
                         neighbours: map<Pos, real>, endNode: TileNav, accumulate: bool): (open': map<Pos, NodeData>)
    {
      map q | q in open.Keys + neighbours.Keys && (q in open || Relaxes(open, closed, currentG, neighbours, q)) ::
        if Relaxes(open, closed, currentG, neighbours, q) then Written(q, endNode, currentG + neighbours[q], accumulate)
        else open[q]
    }

    /** The body of the pass for one neighbour at `neighbour`, one step
        of `cost` away from the expanded node `current`: a closed
        neighbour is skipped; otherwise its entry and parent are rewritten
        when it has no entry or its g exceeds `currentG + cost`. */
    method RelaxNeighbour(open: map<Pos, NodeData>, dirs: map<Pos, Pos>, closed: set<Pos>,
                          current: Pos, currentG: real, neighbour: Pos, cost: real,
                          endNode: TileNav, accumulate: bool)
      returns (open': map<Pos, NodeData>, dirs': map<Pos, Pos>)
      requires KeyedByPosition()
      requires neighbour in tileMap
      ensures open' == if Improves(open, closed, currentG, neighbour, cost)
                       then open[neighbour := Written(neighbour, endNode, currentG + cost, accumulate)] else open
      ensures dirs' == if Improves(open, closed, currentG, neighbour, cost) then dirs[neighbour := current] else dirs
    {
      open', dirs' := open, dirs;
      if neighbour in closed {
        return;
      }
      var startToNeighbourDistance := cost + currentG;
      if neighbour !in open || open[neighbour].g > startToNeighbourDistance {
        dirs' := dirs[neighbour := current];
        var heuristicDistance := GetHeuristicDistance(tileMap[neighbour], endNode);
        var g := if accumulate then startToNeighbourDistance else heuristicDistance;
        open' := open[neighbour := NodeData(g, heuristicDistance)];
      }
    }

    /** One pass over the neighbours of the expanded node `current`, met in
        an unspecified order. The result is RelaxedOpen and RelaxedDirs,
        which look at each neighbour's own entry only: the order does not
        matter. */
    method RelaxNeighbours(open: map<Pos, NodeData>, dirs: map<Pos, Pos>, closed: set<Pos>,
                           current: Pos, currentG: real, neighbours: map<Pos, real>,
                           endNode: TileNav, accumulate: bool)
      returns (open': map<Pos, NodeData>, dirs': map<Pos, Pos>)
      requires KeyedByPosition()
      requires forall q :: q in neighbours ==> q in tileMap
      ensures open' == RelaxedOpen(open, closed, currentG, neighbours, endNode, accumulate)
      ensures dirs' == RelaxedDirs(dirs, open, closed, currentG, neighbours, current)
    {
      open', dirs' := open, dirs;
      var todo := neighbours.Keys;
      ghost var done: map<Pos, real> := map[];
      RelaxedNone(open, dirs, closed, current, currentG, endNode, accumulate);
      while todo != {}
        invariant todo <= neighbours.Keys
        invariant done.Keys == neighbours.Keys - todo
        invariant forall q :: q in done ==> done[q] == neighbours[q]
        invariant open' == RelaxedOpen(open, closed, currentG, done, endNode, accumulate)
        invariant dirs' == RelaxedDirs(dirs, open, closed, currentG, done, current)
        decreases |todo|
      {
        var neighbour :| neighbour in todo;
        var currentToNeighbourDistance := neighbours[neighbour];
        var open'', dirs'' := RelaxNeighbour(open', dirs', closed, current, currentG, neighbour,
                                             currentToNeighbourDistance, endNode, accumulate);
        RelaxedStep(open, dirs, closed, current, currentG, done, neighbour, currentToNeighbourDistance,
                    endNode, accumulate, open', dirs', open'', dirs'');
        open', dirs' := open'', dirs'';
        done := done[neighbour := currentToNeighbourDistance];
        todo := todo - {neighbour};
      }
      assert done == neighbours;
    }

    /** Taking one more neighbour `q`, with step cost `c`, into the pass:
        before it, `q`'s entry is the original one; after it, the entry is
        rewritten exactly when the step improves on it. */
    lemma RelaxedOpenStep(open: map<Pos, NodeData>, closed: set<Pos>, currentG: real,
                          done: map<Pos, real>, q: Pos, c: real, endNode: TileNav, accumulate: bool)
      requires q !in done
      ensures var before := RelaxedOpen(open, closed, currentG, done, endNode, accumulate);
              (q in before <==> q in open) && (q in open ==> before[q] == open[q])
      ensures var before := RelaxedOpen(open, closed, currentG, done, endNode, accumulate);
              RelaxedOpen(open, closed, currentG, done[q := c], endNode, accumulate)
              == if Improves(before, closed, currentG, q, c)
                 then before[q := Written(q, endNode, currentG + c, accumulate)] else before
    {
      var before := RelaxedOpen(open, closed, currentG, done, endNode, accumulate);
      var after := RelaxedOpen(open, closed, currentG, done[q := c], endNode, accumulate);
      assert q in before <==> q in open;
      if Improves(open, closed, currentG, q, c) {
        assert after == before[q := Written(q, endNode, currentG + c, accumulate)];
      } else {
        assert after == before;
      }
    }

    /** A pass over no neighbours changes nothing. */
    lemma RelaxedNone(open: map<Pos, NodeData>, dirs: map<Pos, Pos>, closed: set<Pos>, current: Pos,
                      currentG: real, endNode: TileNav, accumulate: bool)
      ensures RelaxedOpen(open, closed, currentG, map[], endNode, accumulate) == open
      ensures RelaxedDirs(dirs, open, closed, currentG, map[], current) == dirs
    {
    }

    /** The pass so far, followed by the body for one more neighbour,
        is the pass over one more neighbour. */
    lemma RelaxedStep(open: map<Pos, NodeData>, dirs: map<Pos, Pos>, closed: set<Pos>, current: Pos,
                      currentG: real, done: map<Pos, real>, q: Pos, c: real, endNode: TileNav, accumulate: bool,
                      open': map<Pos, NodeData>, dirs': map<Pos, Pos>, open'': map<Pos, NodeData>, dirs'': map<Pos, Pos>)
      requires q !in done
      requires open' == RelaxedOpen(open, closed, currentG, done, endNode, accumulate)
      requires dirs' == RelaxedDirs(dirs, open, closed, currentG, done, current)
      requires open'' == if Improves(open', closed, currentG, q, c)
                         then open'[q := Written(q, endNode, currentG + c, accumulate)] else open'
      requires dirs'' == if Improves(open', closed, currentG, q, c) then dirs'[q := current] else dirs'
      ensures open'' == RelaxedOpen(open, closed, currentG, done[q := c], endNode, accumulate)
      ensures dirs'' == RelaxedDirs(dirs, open, closed, currentG, done[q := c], current)
    {
      RelaxedOpenStep(open, closed, currentG, done, q, c, endNode, accumulate);
      RelaxedDirsStep(dirs, open, open', closed, currentG, done, q, c, current);
    }

    /** What a successful search hands back: the tiles after the start up
        to and including the goal, each a walkable tile of the map one move
        from the one before it, none at the start's position and no
        position twice. */
    ghost predicate ReturnedPath(startNode: TileNav, endNode: TileNav, path: seq<TileNav>)
      reads tileMap.Values
    {
      && (path == [] <==> startNode.position == endNode.position)
      && (path != [] ==> path[|path| - 1].position == endNode.position)
      && IsWalk(startNode.position, path)
      && DistinctPositions(path)
      && forall i :: 0 <= i < |path| ==>
           && path[i].position != startNode.position
           && WalkableAt(path[i].position)
           && tileMap[path[i].position] == path[i]
    }

    /** A returned path to a goal other than the start is a walk to it. */
    lemma ReturnedPathWalks(startNode: TileNav, endNode: TileNav, path: seq<TileNav>)
      ensures ReturnedPath(startNode, endNode, path) && startNode.position != endNode.position ==>
                WalkTo(startNode.position, endNode.position, path)
    {
    }

    /** The parent links of the closed part of the search, with `s` the
        start position. `rank` numbers the closed nodes in the order they
        were expanded and `closedG` keeps the g each had when expanded.
        Every parent is closed and one move away, a closed node's parent
        was closed before it, and every closed node but the start has a
        parent. When g accumulates, it is the cost of the parent chain. */
    ghost predicate ParentLinks(s: Pos, closed: set<Pos>, dirs: map<Pos, Pos>,
                                rank: map<Pos, nat>, closedG: map<Pos, real>, accumulate: bool)
      reads tileMap.Values
    {
      && s !in dirs
      && rank.Keys == closed && closedG.Keys == closed
      && (forall p :: p in closed ==> p == s || p in dirs)
      && (forall p {:trigger dirs[p]} :: p in dirs ==> dirs[p] in closed && Adjacent(dirs[p], p) && WalkableAt(p))
      && (forall p :: p in dirs && p in closed ==> rank[dirs[p]] < rank[p])
      && (s in closed ==> closedG[s] == 0.0)
      && (accumulate ==> forall p :: p in closed && p != s ==>
                           closedG[p] == closedG[dirs[p]] + StepCost(Delta(dirs[p], p)))
    }

    /** The frontier lies apart from the closed nodes and every entry but
        the start's has a closed parent; the start's entry has g 0. When g
        accumulates, an entry's g is its parent's plus the step. */
    ghost predicate OpenLinks(s: Pos, open: map<Pos, NodeData>, closed: set<Pos>, dirs: map<Pos, Pos>,
                              closedG: map<Pos, real>, accumulate: bool)
    {
      && open.Keys !! closed
      && closedG.Keys == closed
      && (forall p :: p in open ==> p == s || (p in dirs && dirs[p] in closed))
      && (s in open ==> open[s].g == 0.0)
      && (accumulate ==> forall p :: p in open && p != s ==>
                           open[p].g == closedG[dirs[p]] + StepCost(Delta(dirs[p], p)))
    }

    /** The state between two iterations of the search. */
    ghost predicate Frontier(s: Pos, open: map<Pos, NodeData>, closed: set<Pos>, dirs: map<Pos, Pos>,
                             rank: map<Pos, nat>, closedG: map<Pos, real>, iterations: nat, accumulate: bool)
      reads tileMap.Values
    {
      && ParentLinks(s, closed, dirs, rank, closedG, accumulate)
      && OpenLinks(s, open, closed, dirs, closedG, accumulate)
      && (s in closed || (open.Keys <= {s} && closed == {} && dirs == map[]))
      && |closed| <= iterations
      && (forall p :: p in rank ==> rank[p] <= iterations)
    }

    /** Every walkable stored cell one move from a closed cell is on the
        frontier or closed itself: nothing next to the explored region has
        been overlooked. */
    ghost predicate Explored(open: map<Pos, NodeData>, closed: set<Pos>)
      reads tileMap.Values
    {
      forall p, q :: p in closed && Adjacent(p, q) && WalkableAt(q) ==> q in open || q in closed
    }

    /** What the search has learnt besides the parent links, after
        `iterations` expansions from `s` that did not reach `goal`: the
        explored region is closed under moves, each expansion closed one
        new cell, and only stored cells and the start were ever touched. */
    ghost predicate Progress(s: Pos, goal: Pos, open: map<Pos, NodeData>, closed: set<Pos>, iterations: nat)
      reads tileMap.Values
    {
      && Explored(open, closed)
      && goal !in closed
      && |closed| == iterations
      && (iterations > 0 ==> s in closed)
      && open.Keys <= tileMap.Keys + {s}
      && closed <= tileMap.Keys + {s}
    }

    /** `w` leads from `from` to `goal`, one move at a time, over walkable
        stored cells. */
    ghost predicate WalkTo(from: Pos, goal: Pos, w: seq<TileNav>)
      reads tileMap.Values
    {
      && IsWalk(from, w)
      && w != []
      && w[|w| - 1].position == goal
      && forall i :: 0 <= i < |w| ==> WalkableAt(w[i].position)
    }

    /** Expanding `current` keeps the explored region closed under moves:
        its own walkable neighbours are on the new frontier unless closed. */
    lemma ExpandKeepsExplored(open: map<Pos, NodeData>, closed: set<Pos>, current: Pos, currentG: real,
                              endNode: TileNav, accumulate: bool)
      requires Explored(open, closed)
      requires current in open
      ensures Explored(RelaxedOpen(open - {current}, closed + {current}, currentG, NeighbourSteps(current),
                                   endNode, accumulate), closed + {current})
    {
      var open' := RelaxedOpen(open - {current}, closed + {current}, currentG, NeighbourSteps(current),
                               endNode, accumulate);
      forall p, q | p in closed + {current} && Adjacent(p, q) && WalkableAt(q)
        ensures q in open' || q in closed + {current}
      {
        if q !in closed + {current} && q !in open {
          assert p == current;
          assert q in NeighbourSteps(current);
          assert Relaxes(open - {current}, closed + {current}, currentG, NeighbourSteps(current), q);
        }
      }
    }

    /** With the frontier empty, a walk that starts in the explored region
        never leaves it. */
    lemma {:induction false} ExploredWalk(from: Pos, w: seq<TileNav>, closed: set<Pos>)
      requires Explored(map[], closed)
      requires from in closed
      requires IsWalk(from, w)
      requires forall i :: 0 <= i < |w| ==> WalkableAt(w[i].position)
      ensures forall i :: 0 <= i < |w| ==> w[i].position in closed
      decreases |w|
    {
      if w != [] {
        var rest := w[1..];
        assert forall i :: 0 < i < |rest| ==> rest[i - 1] == w[i] && rest[i] == w[i + 1];
        ExploredWalk(w[0].position, rest, closed);
        assert forall i :: 0 < i < |w| ==> w[i] == rest[i - 1];
      }
    }

    /** A search whose frontier ran dry after exploring from the start,
        without closing the goal, proves that no walk reaches the goal. */
    lemma NoWalkOut(s: Pos, goal: Pos, closed: set<Pos>)
      requires Explored(map[], closed)
      requires s in closed && goal !in closed
      ensures forall w :: !WalkTo(s, goal, w)
    {
      forall w: seq<TileNav>
        ensures !WalkTo(s, goal, w)
      {
        if IsWalk(s, w) && forall i :: 0 <= i < |w| ==> WalkableAt(w[i].position) {
          ExploredWalk(s, w, closed);
        }
      }
    }

    /** Closing the node `current` taken from the frontier keeps the
        parent links and the frontier links intact; afterwards the start
        is closed. */
    lemma CloseKeepsLinks(s: Pos, open: map<Pos, NodeData>, closed: set<Pos>, dirs: map<Pos, Pos>,
                          rank: map<Pos, nat>, closedG: map<Pos, real>, iterations: nat,
                          accumulate: bool, current: Pos)
      requires Frontier(s, open, closed, dirs, rank, closedG, iterations, accumulate)
      requires current in open
      ensures ParentLinks(s, closed + {current}, dirs, rank[current := iterations + 1],
                          closedG[current := open[current].g], accumulate)
      ensures OpenLinks(s, open - {current}, closed + {current}, dirs, closedG[current := open[current].g], accumulate)
      ensures s in closed + {current}
      ensures |closed + {current}| <= iterations + 1
    {
    }

    /** A pass over the neighbours of the closed node `current` keeps the
        parent links intact: the parents it writes are `current`, and it
        writes none for a closed node. */
    lemma RelaxKeepsParentLinks(s: Pos, open: map<Pos, NodeData>, closed: set<Pos>, dirs: map<Pos, Pos>,
                                rank: map<Pos, nat>, closedG: map<Pos, real>, accumulate: bool,
                                current: Pos, currentG: real, neighbours: map<Pos, real>)
      requires ParentLinks(s, closed, dirs, rank, closedG, accumulate)
      requires s in closed && current in closed
      requires forall q :: q in neighbours ==> Adjacent(current, q) && WalkableAt(q)
      ensures ParentLinks(s, closed, RelaxedDirs(dirs, open, closed, currentG, neighbours, current),
                          rank, closedG, accumulate)
      ensures var dirs' := RelaxedDirs(dirs, open, closed, currentG, neighbours, current);
              forall p :: p in closed ==> (p in dirs' <==> p in dirs) && (p in dirs ==> dirs'[p] == dirs[p])
    {
      var dirs' := RelaxedDirs(dirs, open, closed, currentG, neighbours, current);
      // A closed node is never rewritten, so it keeps its parent.
      assert forall p :: p in closed && p in dirs' ==> p in dirs && dirs'[p] == dirs[p];
    }

    /** A pass over the neighbours of the closed node `current`, whose g
        is `currentG`, keeps the frontier links intact. */
    lemma RelaxKeepsOpenLinks(s: Pos, open: map<Pos, NodeData>, closed: set<Pos>, dirs: map<Pos, Pos>,
                              closedG: map<Pos, real>, accumulate: bool, current: Pos, currentG: real,
                              neighbours: map<Pos, real>, endNode: TileNav)
      requires OpenLinks(s, open, closed, dirs, closedG, accumulate)
      requires s in closed && current in closed && closedG[current] == currentG
      requires forall q :: q in neighbours ==> neighbours[q] == StepCost(Delta(current, q))
      ensures OpenLinks(s, RelaxedOpen(open, closed, currentG, neighbours, endNode, accumulate), closed,
                        RelaxedDirs(dirs, open, closed, currentG, neighbours, current), closedG, accumulate)
    {
    }

    /** One expansion step keeps the frontier invariant: `current`, a
        frontier entry with g `currentG`, is closed and the pass over its
        neighbours rewrites the frontier and the parent links. */
    lemma ExpandKeepsFrontier(s: Pos, open: map<Pos, NodeData>, closed: set<Pos>, dirs: map<Pos, Pos>,
                              rank: map<Pos, nat>, closedG: map<Pos, real>, iterations: nat,
                              accumulate: bool, current: Pos, currentG: real, neighbours: map<Pos, real>,
                              endNode: TileNav)
      requires Frontier(s, open, closed, dirs, rank, closedG, iterations, accumulate)
      requires current in open && currentG == open[current].g
      requires forall q :: q in neighbours ==>
                 Adjacent(current, q) && WalkableAt(q) && neighbours[q] == StepCost(Delta(current, q))
      ensures Frontier(s, RelaxedOpen(open - {current}, closed + {current}, currentG, neighbours, endNode, accumulate),
                       closed + {current},
                       RelaxedDirs(dirs, open - {current}, closed + {current}, currentG, neighbours, current),
                       rank[current := iterations + 1], closedG[current := currentG], iterations + 1, accumulate)
    {
      CloseKeepsLinks(s, open, closed, dirs, rank, closedG, iterations, accumulate, current);
      var open1, closed1 := open - {current}, closed + {current};
      var rank1, closedG1 := rank[current := iterations + 1], closedG[current := currentG];
      RelaxKeepsParentLinks(s, open1, closed1, dirs, rank1, closedG1, accumulate, current, currentG, neighbours);
      RelaxKeepsOpenLinks(s, open1, closed1, dirs, closedG1, accumulate, current, currentG, neighbours, endNode);
    }

    /** Midway through the traceback from `goal`: `walk` holds the tiles
        from just after the closed node `step` up to the goal, each one
        move from the one before it, walkable, closed later than `step`
        and at a distinct position. When g accumulates, the goal's g is
        `step`'s plus the cost of the walk. */
    ghost predicate Traced(goal: Pos, step: Pos, walk: seq<TileNav>, dirs: map<Pos, Pos>, closed: set<Pos>,
                           rank: map<Pos, nat>, closedG: map<Pos, real>, accumulate: bool)
      reads tileMap.Values
    {
      && step in closed && goal in closed
      && rank.Keys == closed && closedG.Keys == closed
      && (walk == [] ==> step == goal)
      && (walk != [] ==> walk[|walk| - 1].position == goal)
      && IsWalk(step, walk)
      && DistinctPositions(walk)
      && (forall i :: 0 <= i < |walk| ==>
            && walk[i].position in dirs && walk[i].position in closed
            && WalkableAt(walk[i].position)
            && tileMap[walk[i].position] == walk[i]
            && rank[walk[i].position] > rank[step])
      && (accumulate ==> closedG[goal] == closedG[step] + WalkCost(step, walk))
    }

    /** One step back along the parent links keeps the traceback in order,
        and the parent was closed before the node it is stepped back from. */
    lemma TraceStep(s: Pos, goal: Pos, step: Pos, walk: seq<TileNav>, dirs: map<Pos, Pos>, closed: set<Pos>,
                    rank: map<Pos, nat>, closedG: map<Pos, real>, accumulate: bool)
      requires KeyedByPosition()
      requires ParentLinks(s, closed, dirs, rank, closedG, accumulate)
      requires Traced(goal, step, walk, dirs, closed, rank, closedG, accumulate)
      requires step != s
      ensures step in dirs && step in tileMap && dirs[step] in rank
      ensures Traced(goal, dirs[step], [tileMap[step]] + walk, dirs, closed, rank, closedG, accumulate)
      ensures rank[dirs[step]] < rank[step]
    {
      var tile := tileMap[step];
      var parent := dirs[step];
      WalkPrepend(parent, tile, walk);
      assert forall i :: 0 <= i < |walk| ==> walk[i].position != step by {
        forall i | 0 <= i < |walk| ensures walk[i].position != step {
          assert rank[walk[i].position] > rank[step];
        }
      }
      DistinctPrepend(tile, walk);
      var w := [tile] + walk;
      forall i | 0 <= i < |w|
        ensures && w[i].position in dirs && w[i].position in closed
                && WalkableAt(w[i].position)
                && tileMap[w[i].position] == w[i]
                && rank[w[i].position] > rank[parent]
      {
        if i > 0 {
          assert w[i] == walk[i - 1];
        }
      }
      if accumulate {
        WalkCostPrepend(parent, tile, walk);
      }
    }

    /** A traceback that has reached the start has produced a path the
        search may hand back, no longer than the number of closed nodes
        other than the start. */
    lemma TraceComplete(startNode: TileNav, endNode: TileNav, walk: seq<TileNav>, dirs: map<Pos, Pos>,
                        closed: set<Pos>, rank: map<Pos, nat>, closedG: map<Pos, real>, accumulate: bool)
      requires Traced(endNode.position, startNode.position, walk, dirs, closed, rank, closedG, accumulate)
      ensures ReturnedPath(startNode, endNode, walk)
      ensures |walk| < |closed|
      ensures accumulate ==> closedG[endNode.position] == closedG[startNode.position] + WalkCost(startNode.position, walk)
    {
      DistinctPositionsBound(walk, closed - {startNode.position});
    }

    /** Follows the parent links back from the goal, which has just been
        closed, to the start and returns the tiles passed, start excluded,
        in the order start to goal. */
    method TracePath(startNode: TileNav, endNode: TileNav, dirs: map<Pos, Pos>,
                     ghost closed: set<Pos>, ghost rank: map<Pos, nat>, ghost closedG: map<Pos, real>,
                     ghost accumulate: bool)
      returns (path: seq<TileNav>)
      requires KeyedByPosition()
      requires ParentLinks(startNode.position, closed, dirs, rank, closedG, accumulate)
      requires startNode.position in closed && endNode.position in closed
      ensures ReturnedPath(startNode, endNode, path)
      ensures |path| < |closed|
      ensures accumulate ==> closedG[endNode.position] == WalkCost(startNode.position, path)
    {
      var s, goal := startNode.position, endNode.position;
      var finalPath: seq<TileNav> := [];
      var tracebackStep := goal;
      // `walk` is finalPath read back to front: the tiles from just after
      // tracebackStep up to the goal.
      ghost var walk: seq<TileNav> := [];
      while tracebackStep != s
        invariant walk == Reverse(finalPath)
        invariant Traced(goal, tracebackStep, walk, dirs, closed, rank, closedG, accumulate)
        decreases rank[tracebackStep]
      {
        TraceStep(s, goal, tracebackStep, walk, dirs, closed, rank, closedG, accumulate);
        var tile := tileMap[tracebackStep];
        ReverseSnoc(finalPath, tile);
        finalPath := finalPath + [tile];
        walk := [tile] + walk;
        tracebackStep := dirs[tracebackStep];
      }
      path := Reverse(finalPath);
      TraceComplete(startNode, endNode, path, dirs, closed, rank, closedG, accumulate);
    }

    /** Expands the frontier entry `current`, which is not the goal: it
        leaves the frontier, is closed, and its walkable neighbours are
        relaxed. The node object searched from is the start tile itself
        when `current` is the start's position, the map's tile otherwise. */
    method Expand(startNode: TileNav, endNode: TileNav, open: map<Pos, NodeData>, closed: set<Pos>,
                  dirs: map<Pos, Pos>, ghost rank: map<Pos, nat>, ghost closedG: map<Pos, real>,
                  ghost iterations: nat, accumulate: bool, current: Pos)
      returns (open': map<Pos, NodeData>, dirs': map<Pos, Pos>)
      requires KeyedByPosition()
      requires Frontier(startNode.position, open, closed, dirs, rank, closedG, iterations, accumulate)
      requires Progress(startNode.position, endNode.position, open, closed, iterations)
      requires current in open && current != endNode.position
      ensures open' == RelaxedOpen(open - {current}, closed + {current}, open[current].g, NeighbourSteps(current),
                                   endNode, accumulate)
      ensures dirs' == RelaxedDirs(dirs, open - {current}, closed + {current}, open[current].g,
                                   NeighbourSteps(current), current)
      ensures Frontier(startNode.position, open', closed + {current}, dirs', rank[current := iterations + 1],
                       closedG[current := open[current].g], iterations + 1, accumulate)
      ensures Progress(startNode.position, endNode.position, open', closed + {current}, iterations + 1)
    {
      var s := startNode.position;
      var currentNode := if current == s then startNode else tileMap[current];
      var neighbours := GetNeighboursAndStepCosts(currentNode);
      open', dirs' := RelaxNeighbours(open - {current}, dirs, closed + {current}, current, open[current].g,
                                      neighbours, endNode, accumulate);
      ExpandKeepsFrontier(s, open, closed, dirs, rank, closedG, iterations, accumulate, current,
                          open[current].g, neighbours, endNode);
      NeighbourStepsUnique(current, neighbours);
      ExpandKeepsExplored(open, closed, current, open[current].g, endNode, accumulate);
    }

    /** The search loop shared by GeneratePath (`accumulate` false: the
        source's bookkeeping, which stores the heuristic distance as g) and
        GeneratePathCorrected (`accumulate` true: g is the distance from the
        start). `goalG` is the g of the goal when it was expanded. */
    method Search(startNode: TileNav, endNode: TileNav, accumulate: bool)
      returns (found: bool, path: seq<TileNav>, goalG: real, ghost iterations: nat)
      requires KeyedByPosition()
      ensures calculatorPatience <= 0 ==> iterations == 0 && !found
      ensures calculatorPatience > 0 ==> 1 <= iterations <= calculatorPatience
      ensures !found ==> path == []
      ensures startNode.Equals(endNode) ==> (found <==> calculatorPatience > 0)
      ensures found ==> ReturnedPath(startNode, endNode, path) && |path| < iterations
      ensures found && accumulate ==> goalG == WalkCost(startNode.position, path)
      ensures !found && calculatorPatience > |tileMap| + 1 ==>
                startNode.position != endNode.position
                && forall w :: !WalkTo(startNode.position, endNode.position, w)
    {
      EqualsIsPositionEquality(startNode, endNode);
      var s := startNode.position;
      var patience := calculatorPatience;
      var closed: set<Pos> := {};
      var open := map[s := NodeData(0.0, GetHeuristicDistance(startNode, endNode))];
      var dirs: map<Pos, Pos> := map[];
      ghost var rank: map<Pos, nat> := map[];
      ghost var closedG: map<Pos, real> := map[];
      iterations := 0;
      goalG := 0.0;

      while patience > 0
        invariant iterations == 0 || 0 <= patience == calculatorPatience - iterations
        invariant iterations == 0 ==> patience == calculatorPatience
        invariant Frontier(s, open, closed, dirs, rank, closedG, iterations, accumulate)
        invariant iterations == 0 ==> s in open
        invariant s == endNode.position ==> iterations == 0
        invariant Progress(s, endNode.position, open, closed, iterations)
      {
        patience := patience - 1;
        if open == map[] {
          NoWalkOut(s, endNode.position, closed);
          iterations := iterations + 1;
          break;
        }

        var current := SelectMinimal(open);
        var currentData := open[current];
        CloseKeepsLinks(s, open, closed, dirs, rank, closedG, iterations, accumulate, current);
        if current == endNode.position {
          path := TracePath(startNode, endNode, dirs, closed + {current}, rank[current := iterations + 1],
                            closedG[current := currentData.g], accumulate);
          found, goalG, iterations := true, currentData.g, iterations + 1;
          return;
        }

        open, dirs := Expand(startNode, endNode, open, closed, dirs, rank, closedG, iterations, accumulate, current);
        closed := closed + {current};
        rank := rank[current := iterations + 1];
        closedG := closedG[current := currentData.g];
        iterations := iterations + 1;
      }
      CellsBound(closed, s);
      found, path := false, [];
    }

    /** The cells a search can close are the stored ones and the start. */
    lemma CellsBound(closed: set<Pos>, s: Pos)
      requires closed <= tileMap.Keys + {s}
      ensures |closed| <= |tileMap| + 1
    {
      SubsetSize(closed, tileMap.Keys + {s});
    }

    /** The search as the source writes it. It gives up once its budget of
        iterations is spent or the frontier runs dry, and then hands back
        no path; when it succeeds the path leads from the start to the goal
        through walkable tiles of the map. Start and goal at the same
        position give an empty path, provided the budget allows one
        iteration. */
    method GeneratePath(startNode: TileNav, endNode: TileNav)
      returns (found: bool, path: seq<TileNav>, ghost iterations: nat)
      requires KeyedByPosition()
      ensures calculatorPatience <= 0 ==> !found && iterations == 0
      ensures calculatorPatience > 0 ==> 1 <= iterations <= calculatorPatience
      ensures !found ==> path == []
      ensures startNode.Equals(endNode) ==> (found <==> calculatorPatience > 0) && path == []
      ensures found ==> ReturnedPath(startNode, endNode, path) && |path| < iterations
      ensures calculatorPatience > |tileMap| + 1 ==>
                (found <==> startNode.position == endNode.position
                            || exists w :: WalkTo(startNode.position, endNode.position, w))
    {
      EqualsIsPositionEquality(startNode, endNode);
      var goalG;
      found, path, goalG, iterations := Search(startNode, endNode, false);
      ReturnedPathWalks(startNode, endNode, path);
    }

    /** Not part of the source: the search with the bookkeeping its
        comments describe, where the g stored for a neighbour is the
        distance from the start through the node being expanded. It keeps
        every guarantee of GeneratePath, and the g of the goal is then the
        cost of the path handed back. */
    method GeneratePathCorrected(startNode: TileNav, endNode: TileNav)
      returns (found: bool, path: seq<TileNav>, cost: real, ghost iterations: nat)
      requires KeyedByPosition()
      ensures calculatorPatience <= 0 ==> !found && iterations == 0
      ensures calculatorPatience > 0 ==> 1 <= iterations <= calculatorPatience
      ensures !found ==> path == []
      ensures startNode.Equals(endNode) ==> (found <==> calculatorPatience > 0) && path == []
      ensures found ==> ReturnedPath(startNode, endNode, path) && |path| < iterations
      ensures found ==> cost == WalkCost(startNode.position, path)
      ensures calculatorPatience > |tileMap| + 1 ==>
                (found <==> startNode.position == endNode.position
                            || exists w :: WalkTo(startNode.position, endNode.position, w))
    {
      EqualsIsPositionEquality(startNode, endNode);
      found, path, cost, iterations := Search(startNode, endNode, true);
      ReturnedPathWalks(startNode, endNode, path);
    }

    /** The first expansion from the start writes, as the source has it,
        the heuristic distance to the goal as the neighbour's g, which is
        not the cost of the step from the start whenever the two differ;
        the corrected bookkeeping writes the step cost. */
    lemma FirstStepG(s: Pos, q: Pos, endNode: TileNav)
      requires Adjacent(s, q)
      ensures var step := map[q := StepCost(Delta(s, q))];
              var asWritten := RelaxedOpen(map[], {s}, 0.0, step, endNode, false);
              var corrected := RelaxedOpen(map[], {s}, 0.0, step, endNode, true);
              && q in asWritten && q in corrected
              && asWritten[q].g == distance(q, endNode.position)
              && (distance(q, endNode.position) != StepCost(Delta(s, q)) ==> asWritten[q].g != StepCost(Delta(s, q)))
              && corrected[q].g == StepCost(Delta(s, q))
    {
    }

    /** The input of the finding: start (0,0,0), neighbour (1,0,0), goal
        (5,0,0), with the Euclidean distance 4 from neighbour to goal. The
        source records g = 4.0 for a neighbour one straight step, cost
        1.0, from the start; the corrected bookkeeping records 1.0. */
    lemma FirstStepGExample(endNode: TileNav)
      requires endNode.position == Pos(5, 0, 0)
      requires distance(Pos(1, 0, 0), Pos(5, 0, 0)) == 4.0
      ensures StepCost(Delta(Pos(0, 0, 0), Pos(1, 0, 0))) == 1.0
      ensures var asWritten := RelaxedOpen(map[], {Pos(0, 0, 0)}, 0.0, map[Pos(1, 0, 0) := 1.0], endNode, false);
              Pos(1, 0, 0) in asWritten && asWritten[Pos(1, 0, 0)].g == 4.0
      ensures var corrected := RelaxedOpen(map[], {Pos(0, 0, 0)}, 0.0, map[Pos(1, 0, 0) := 1.0], endNode, true);
              Pos(1, 0, 0) in corrected && corrected[Pos(1, 0, 0)].g == 1.0
    {
      var q := Pos(1, 0, 0);
      assert Delta(Pos(0, 0, 0), q) == q;
      assert Relaxes(map[], {Pos(0, 0, 0)}, 0.0, map[q := 1.0], q);
    }
  }

  lemma WalkPrepend(from: Pos, tile: TileNav, walk: seq<TileNav>)
    requires Adjacent(from, tile.position) && IsWalk(tile.position, walk)
    ensures IsWalk(from, [tile] + walk)
  {
    var w := [tile] + walk;
    forall i | 1 < i < |w|
      ensures Adjacent(w[i - 1].position, w[i].position)
    {
      assert w[i - 1] == walk[i - 2] && w[i] == walk[i - 1];
    }
  }

  lemma DistinctPrepend(tile: TileNav, walk: seq<TileNav>)
    requires DistinctPositions(walk)
    requires forall i :: 0 <= i < |walk| ==> walk[i].position != tile.position
    ensures DistinctPositions([tile] + walk)
  {
    var w := [tile] + walk;
    forall i, j | 0 <= i < j < |w|
      ensures w[i].position != w[j].position
    {
      assert w[j] == walk[j - 1];
      if i > 0 {
        assert w[i] == walk[i - 1];
      }
    }
  }

  lemma WalkCostPrepend(from: Pos, tile: TileNav, walk: seq<TileNav>)
    ensures WalkCost(from, [tile] + walk) == StepCost(Delta(from, tile.position)) + WalkCost(tile.position, walk)
  {
    assert ([tile] + walk)[1..] == walk;
  }

  /** A path with no repeated position, all of whose positions lie in `S`,
      is no longer than `S` is large. */
  lemma {:induction false} DistinctPositionsBound(path: seq<TileNav>, S: set<Pos>)
    requires DistinctPositions(path)
    requires forall i :: 0 <= i < |path| ==> path[i].position in S
    ensures |path| <= |S|
  {
    if path != [] {
      var last := path[|path| - 1].position;
      DistinctPositionsBound(path[..|path| - 1], S - {last});
    }
  }

  lemma {:induction false} SubsetSize<T>(a: set<T>, b: set<T>)
    requires a <= b
    ensures |a| <= |b|
  {
    if a != {} {
      var x :| x in a;
      SubsetSize(a - {x}, b - {x});
    }
  }
}
