/** The A* engine (UAStar): a best-first search from start to destination
    that relaxes neighbours by total cost (cost plus the grid's distance to the
    destination) and, on reaching the destination, walks parent indices back
    to the start to hand out the path, destination first and start left out. */
module Astar {
  import opened Grid
  import ElementMask
  import opened Pathfinding
  import opened SearchSpec
  import opened SearchSteps
  import opened AstarSpec

  /** The rules of an A* search from start to destination: only start is
      exempt from the block test; every tile left, start included, must have a
      colour in pathColor; every reached node stays below INT_MAX. */
  function AstarRules(g: HexGrid, start: Coord, destination: Coord, pathColor: ElementMask.Mask,
                      nodeBlockTest: BlockTest): Search
  {
    Search(g, start, start, nodeBlockTest, Within(pathColor, false), INT_MAX, ByTotal(destination))
  }

  /** What an A* answer promises: a found path leads from start to
      destination under the rules, never lists start, costs less than INT_MAX,
      and is empty exactly when start is the destination; no path is handed out
      without success, and failure means no path the rules allow reaches the
      destination with every total along it below INT_MAX; and a search whose
      start is its destination succeeds with the empty path. */
  ghost predicate Answers(s: Search, destination: Coord, found: bool, path: seq<Coord>)
  {
    (found ==>
      ValidBackPath(s, path) && Target(s.origin, path) == destination && s.origin !in path &&
      BackCost(s.grid, s.origin, path) < INT_MAX && (path == [] <==> s.origin == destination)) &&
    (!found ==> path == [] && NoPathWithin(s, destination)) &&
    (s.origin == destination ==> found && path == [])
  }

  /** The A* neighbour loop: each neighbour that passes the block test (or is
      start) and whose total cost through cur is strictly lower gets cur as
      parent and is opened. */
  method ExpandNeighbors(pool: NodePool, list: OpenList, cur: int, start: Coord, destination: Coord,
                         nodeBlockTest: BlockTest, ghost s: Search)
    requires list.nodePool == pool && pool.grid == s.grid && s.grid.Valid()
    requires s.exempt == start && s.test == nodeBlockTest && s.ord == ByTotal(destination)
    requires SearchInv(s, pool.nodes, pool.nodeMap, list.items) && Reached(pool.nodes, cur)
    requires TransitOk(s, pool.nodes[cur].position)
    modifies pool, list
    ensures SearchInv(s, pool.nodes, pool.nodeMap, list.items)
    ensures Grows(old(pool.nodes), old(pool.nodeMap), pool.nodes, pool.nodeMap)
    ensures Potential(s, pool.nodes, pool.nodeMap) < old(Potential(s, pool.nodes, pool.nodeMap)) ||
      (Potential(s, pool.nodes, pool.nodeMap) == old(Potential(s, pool.nodes, pool.nodeMap)) && list.items == old(list.items))
    ensures PoolState(pool.nodes, pool.nodeMap, list.items) ==
      VisitNeighbors(s, PoolState(old(pool.nodes), old(pool.nodeMap), old(list.items)), cur, s.grid.neighbors(old(pool.nodes[cur].position)))
  {
    ghost var nodes0, map0, items0 := pool.nodes, pool.nodeMap, list.items;
    ghost var p0 := Potential(s, nodes0, map0);
    var currNodePos := pool.nodes[cur].position;
    var neighbors := pool.grid.neighbors(currNodePos);
    var i := 0;
    while i < |neighbors|
      invariant 0 <= i <= |neighbors|
      invariant SearchInv(s, pool.nodes, pool.nodeMap, list.items) && Reached(pool.nodes, cur)
      invariant pool.nodes[cur] == nodes0[cur]
      invariant Grows(nodes0, map0, pool.nodes, pool.nodeMap)
      invariant Potential(s, pool.nodes, pool.nodeMap) < p0 ||
        (Potential(s, pool.nodes, pool.nodeMap) == p0 && list.items == items0)
      invariant PoolState(pool.nodes, pool.nodeMap, list.items) == VisitNeighbors(s, PoolState(nodes0, map0, items0), cur, neighbors[..i])
    {
      ghost var nodes1, map1 := pool.nodes, pool.nodeMap;
      ExpandNeighbor(pool, list, cur, neighbors[i], start, destination, nodeBlockTest, s);
      GrowsTransitive(nodes0, map0, nodes1, map1, pool.nodes, pool.nodeMap);
      VisitNeighborsNext(s, PoolState(nodes0, map0, items0), cur, neighbors, i);
      i := i + 1;
    }
    assert neighbors[..i] == neighbors;
  }

  /** One iteration of the A* neighbour loop, for neighbour neighborNodePos of cur. */
  method ExpandNeighbor(pool: NodePool, list: OpenList, cur: int, neighborNodePos: Coord, start: Coord,
                        destination: Coord, nodeBlockTest: BlockTest, ghost s: Search)
    requires list.nodePool == pool && pool.grid == s.grid && s.grid.Valid()
    requires s.exempt == start && s.test == nodeBlockTest && s.ord == ByTotal(destination)
    requires SearchInv(s, pool.nodes, pool.nodeMap, list.items) && Reached(pool.nodes, cur)
    requires neighborNodePos in s.grid.neighbors(pool.nodes[cur].position)
    requires TransitOk(s, pool.nodes[cur].position)
    modifies pool, list
    ensures SearchInv(s, pool.nodes, pool.nodeMap, list.items) && Reached(pool.nodes, cur)
    ensures pool.nodes[cur] == old(pool.nodes[cur])
    ensures Grows(old(pool.nodes), old(pool.nodeMap), pool.nodes, pool.nodeMap)
    ensures Potential(s, pool.nodes, pool.nodeMap) < old(Potential(s, pool.nodes, pool.nodeMap)) ||
      (Potential(s, pool.nodes, pool.nodeMap) == old(Potential(s, pool.nodes, pool.nodeMap)) && list.items == old(list.items))
    ensures PoolState(pool.nodes, pool.nodeMap, list.items) ==
      VisitNeighbor(s, PoolState(old(pool.nodes), old(pool.nodeMap), old(list.items)), cur, neighborNodePos)
  {
    var currNodePos := pool.nodes[cur].position;
    ghost var nodes0, map0, items0 := pool.nodes, pool.nodeMap, list.items;
    var neighborIndex := FindNode(pool, list, neighborNodePos, s);
    VisitNeighborAt(s, PoolState(nodes0, map0, items0), cur, neighborNodePos, pool.nodes, pool.nodeMap, neighborIndex);
    ghost var step := RelaxStep(s, pool.nodes, items0, cur, neighborIndex);
    if neighborNodePos == start || RunTest(nodeBlockTest, pool.nodes[cur], pool.nodes[neighborIndex], pool.grid) {
      var newCost := pool.nodes[cur].cost + pool.grid.cost(currNodePos, neighborNodePos);
      var newHeuristic := pool.grid.distance(neighborNodePos, destination);
      var newTotalCost := newCost + newHeuristic;
      RelaxStepWith(s, pool.nodes, items0, cur, neighborIndex, newCost, newTotalCost);
      if newTotalCost < pool.nodes[neighborIndex].totalCost {
        ghost var nodes1, map1 := pool.nodes, pool.nodeMap;
        ImproveTotal(pool, list, cur, neighborIndex, newCost, newTotalCost, s);
        GrowsTransitive(nodes0, map0, nodes1, map1, pool.nodes, pool.nodeMap);
        assert (pool.nodes, list.items) == step;
        return;
      }
    }
    assert (pool.nodes, list.items) == step;
  }

  /** Gives neighbour j the cost newCost and the lower total newTotalCost
      through cur, with cur as its parent, and opens it if it is not open. */
  method ImproveTotal(pool: NodePool, list: OpenList, cur: int, j: int, newCost: int, newTotalCost: int, ghost s: Search)
    requires list.nodePool == pool && pool.grid == s.grid && s.ord.ByTotal?
    requires SearchInv(s, pool.nodes, pool.nodeMap, list.items) && Reached(pool.nodes, cur) && 0 <= j < |pool.nodes|
    requires CanRelax(s, pool.nodes, cur, j, newCost, newTotalCost)
    modifies pool, list
    ensures SearchInv(s, pool.nodes, pool.nodeMap, list.items) && Reached(pool.nodes, cur)
    ensures pool.nodes[cur] == old(pool.nodes[cur]) && pool.nodeMap == old(pool.nodeMap)
    ensures Grows(old(pool.nodes), old(pool.nodeMap), pool.nodes, pool.nodeMap)
    ensures Potential(s, pool.nodes, pool.nodeMap) < old(Potential(s, pool.nodes, pool.nodeMap))
    ensures pool.nodes == old(pool.nodes)[j := Relaxed(s.ord, old(pool.nodes[j]), old(pool.nodes[cur].position), cur, newCost, newTotalCost).(isOpened := true)]
    ensures list.items == if old(pool.nodes[j].isOpened) then old(list.items) else old(list.items) + [j]
  {
    ghost var nodes1, map1, items1 := pool.nodes, pool.nodeMap, list.items;
    var currNodePos := pool.nodes[cur].position;
    ImproveKeepsInv(s, nodes1, map1, items1, cur, j, newCost, newTotalCost);
    IndexedAt(pool.grid, nodes1, map1, j);
    pool.nodes := pool.nodes[j := pool.nodes[j].(
      cost := newCost, totalCost := newTotalCost, parentPos := currNodePos, parentIndex := cur, isClosed := false)];
    if !pool.nodes[j].isOpened {
      list.Push(j);
    }
    assert pool.nodes == nodes1[j := Relaxed(s.ord, nodes1[j], currNodePos, cur, newCost, newTotalCost).(isOpened := true)];
    assert list.items == if nodes1[j].isOpened then items1 else items1 + [j];
  }

  /** UAStar: the grid and the engine's pool and open list. */
  class AStar {
    const grid: HexGrid
    const nodePool: NodePool
    const openList: OpenList

    ghost predicate Valid()
    {
      openList.nodePool == nodePool && nodePool.grid == grid
    }

    /** Construction followed by Initialize: the pool is bound to the grid. */
    constructor (grid: HexGrid)
      ensures this.grid == grid && Valid() && fresh(nodePool) && fresh(openList)
      ensures nodePool.nodes == [] && openList.items == []
    {
      this.grid := grid;
      var pool := new NodePool(grid);
      nodePool := pool;
      openList := new OpenList(pool);
    }

    /** Clears the pool, the list and the path, and opens a node for start
        with cost and total cost 0. */
    method SearchKickOff(start: Coord) returns (outPath: seq<Coord>)
      requires Valid()
      modifies nodePool, openList
      ensures outPath == []
      ensures nodePool.nodes ==
        [NewNode(start).(searchNodeIndex := 0, tileData := grid.tileData(start), cost := 0, totalCost := 0, isOpened := true)]
      ensures nodePool.nodeMap == map[start := 0] && openList.items == [0]
    {
      nodePool.Reset();
      openList.Reset();
      outPath := [];
      var startIndex := nodePool.Add(start);
      nodePool.nodes := nodePool.nodes[startIndex := nodePool.nodes[startIndex].(cost := 0, totalCost := 0)];
      openList.Push(startIndex);
    }

    /** The destination branch of AstarSearch: starting at node cur, append
        each node's position and copy its parent node into cur's slot (the
        source assigns through the reference it holds to that slot) until a
        node at start is reached. The path is the parent walk from cur; the
        slot of cur is left holding a copy of the start node. */
    method Reconstruct(start: Coord, cur: int, ghost s: Search) returns (outPath: seq<Coord>)
      requires s.origin == start && Structure(s, nodePool.nodes, nodePool.nodeMap) && Reached(nodePool.nodes, cur)
      modifies nodePool
      ensures Chained(old(nodePool.nodes)) && outPath == PathBack(old(nodePool.nodes), cur)
      ensures nodePool.nodes == old(nodePool.nodes)[cur := old(nodePool.nodes[0])]
      ensures nodePool.nodeMap == old(nodePool.nodeMap)
    {
      ghost var orig := nodePool.nodes;
      StructureChained(s, orig, nodePool.nodeMap);
      ghost var w := cur;
      outPath := [];
      while nodePool.nodes[cur].position != start
        invariant Reached(orig, w) && orig[w].cost <= orig[cur].cost
        invariant nodePool.nodes == orig[cur := orig[w]] && nodePool.nodeMap == old(nodePool.nodeMap)
        invariant outPath + PathBack(orig, w) == PathBack(orig, cur)
        decreases orig[w].cost
      {
        assert ChainLink(orig, w);
        ReachedBelowMax(s, orig, old(nodePool.nodeMap), w);
        var p := nodePool.nodes[cur].parentIndex;
        assert NodeOk(s, orig, p);
        assert p != cur;
        assert PathBack(orig, w) == [orig[w].position] + PathBack(orig, p);
        outPath := outPath + [nodePool.nodes[cur].position];
        nodePool.nodes := nodePool.nodes[cur := nodePool.nodes[p]];
        w := p;
      }
      if w != 0 {
        IndexedPositionsDistinct(s.grid, orig, nodePool.nodeMap, w, 0);
      }
    }

    /** AstarSearch: the search from start to destination with the given
        colours to pass through and block test. See Answers for what the
        result promises. */
    method AstarSearch(start: Coord, destination: Coord, pathColor: ElementMask.Mask, nodeBlockTest: BlockTest)
      returns (found: bool, outPath: seq<Coord>)
      requires Valid() && grid.Valid()
      modifies nodePool, openList
      ensures Answers(AstarRules(grid, start, destination, pathColor, nodeBlockTest), destination, found, outPath)
      ensures found ==> (destination in nodePool.nodeMap &&
        0 <= nodePool.nodeMap[destination] < |nodePool.nodes| &&
        nodePool.nodes[nodePool.nodeMap[destination]] == nodePool.nodes[0])
    {
      ghost var s := AstarRules(grid, start, destination, pathColor, nodeBlockTest);
      outPath := SearchKickOff(start);
      KickOffEstablishes(s, nodePool.nodes[0]);
      found := false;

      while |openList.items| > 0 && !found
        invariant !found ==> SearchInv(s, nodePool.nodes, nodePool.nodeMap, openList.items) && outPath == []
        invariant !found ==> AllSettled(s, nodePool.nodes, nodePool.nodeMap, openList.items, INDEX_NONE)
        invariant !found ==> DestinationOpen(s, nodePool.nodes, nodePool.nodeMap, openList.items)
        invariant !found && start == destination ==> openList.items == [0]
        invariant found ==> Answers(s, destination, found, outPath)
        invariant found ==> (destination in nodePool.nodeMap &&
          0 <= nodePool.nodeMap[destination] < |nodePool.nodes| &&
          nodePool.nodes[nodePool.nodeMap[destination]] == nodePool.nodes[0])
        decreases !found, if found then 0 else Potential(s, nodePool.nodes, nodePool.nodeMap), |openList.items|
      {
        PotentialNonNegative(s, nodePool.nodes, nodePool.nodeMap);
        ghost var nodes0, map0, items0 := nodePool.nodes, nodePool.nodeMap, openList.items;
        ghost var index, popped;
        found, outPath, index, popped := VisitNext(start, destination, pathColor, nodeBlockTest, s);
        if !found {
          PassKeepsSettled(s, nodes0, map0, items0, index, popped,
                           PoolState(nodePool.nodes, nodePool.nodeMap, openList.items), pathColor);
        }
      }
      if !found {
        ExhaustedNoPath(s, nodePool.nodes, nodePool.nodeMap);
      }
    }

    /** One pass of the A* loop: pop the cheapest open node and close it; if it
        is the destination, hand out the path; if its colour is not in
        pathColor, skip it; otherwise expand it. */
    method VisitNext(start: Coord, destination: Coord, pathColor: ElementMask.Mask, nodeBlockTest: BlockTest,
                     ghost s: Search)
      returns (found: bool, outPath: seq<Coord>, ghost index: int, ghost poppedItems: seq<int>)
      requires Valid() && grid.Valid() && s == AstarRules(grid, start, destination, pathColor, nodeBlockTest)
      requires SearchInv(s, nodePool.nodes, nodePool.nodeMap, openList.items) && |openList.items| > 0
      requires start == destination ==> openList.items == [0]
      modifies nodePool, openList
      ensures found ==> Answers(s, destination, found, outPath)
      ensures found ==> (destination in nodePool.nodeMap &&
        0 <= nodePool.nodeMap[destination] < |nodePool.nodes| &&
        nodePool.nodes[nodePool.nodeMap[destination]] == nodePool.nodes[0])
      ensures !found ==> SearchInv(s, nodePool.nodes, nodePool.nodeMap, openList.items) && outPath == [] && start != destination
      ensures !found ==>
        Potential(s, nodePool.nodes, nodePool.nodeMap) < old(Potential(s, nodePool.nodes, nodePool.nodeMap)) ||
        (Potential(s, nodePool.nodes, nodePool.nodeMap) == old(Potential(s, nodePool.nodes, nodePool.nodeMap)) &&
         |openList.items| < old(|openList.items|))
      // The popped node: one of least cost; the list minus it is poppedItems.
      ensures 0 <= index < |old(nodePool.nodes)| && index in old(openList.items)
      ensures forall j :: j in old(openList.items) ==> old(nodePool.nodes[j].cost) >= old(nodePool.nodes[index].cost)
      ensures multiset(poppedItems) == multiset(old(openList.items)) - multiset{index}
      // Found exactly when the popped node is the destination; otherwise it is
      // expanded exactly when its colour is in pathColor.
      ensures found <==> old(nodePool.nodes[index].position) == destination
      ensures var n := old(nodePool.nodes[index]);
        var popped := PoolState(old(nodePool.nodes)[index := n.(isOpened := false, isClosed := true)], old(nodePool.nodeMap), poppedItems);
        !found ==>
          PoolState(nodePool.nodes, nodePool.nodeMap, openList.items) ==
            (if ElementMask.Allows(pathColor, n.tileData.topType) then VisitNeighbors(s, popped, index, grid.neighbors(n.position)) else popped)
    {
      found, outPath := false, [];
      var currNodeIndex := PopAndClose(nodePool, openList, s);
      index, poppedItems := currNodeIndex, openList.items;
      var currNodePos := nodePool.nodes[currNodeIndex].position;
      IndexedAt(grid, nodePool.nodes, nodePool.nodeMap, currNodeIndex);

      // The destination: walk back to start.
      if currNodePos == destination {
        FoundPathSound(s, nodePool.nodes, nodePool.nodeMap, currNodeIndex);
        outPath := Reconstruct(start, currNodeIndex, s);
        found := true;
        return;
      }

      // The colour test comes after the destination test.
      if ElementMask.MapColor(nodePool.nodes[currNodeIndex].tileData.topType) & pathColor == ElementMask.None {
        return;
      }

      ExpandNeighbors(nodePool, openList, currNodeIndex, start, destination, nodeBlockTest, s);
    }

    /** GetPath: unless any destination is allowed, the destination must hold
        the walker's element, Stone or (when allowed) Water, or the search is
        not run, false is returned and the caller's path is left as it was.
        Otherwise the A* search passes through the walker's colour, Stone and
        (when allowed) Water, under the height test. */
    method GetPath(start: Coord, destination: Coord, path: seq<Coord>, inElementType: ElementType,
                   allowWaterType: bool, allowAnyDestination: bool)
      returns (found: bool, outPath: seq<Coord>)
      requires Valid() && grid.Valid()
      modifies nodePool, openList
      ensures var admissible := allowAnyDestination || grid.testTileElement(destination, inElementType) ||
        grid.testTileElement(destination, ElementType.Stone) ||
        (allowWaterType && grid.testTileElement(destination, ElementType.Water));
        (!admissible ==> !found && outPath == path) &&
        (admissible ==> Answers(AstarRules(grid, start, destination, ElementMask.TransitColor(inElementType, allowWaterType), TestHeight),
                                destination, found, outPath))
    {
      if !allowAnyDestination {
        if !grid.testTileElement(destination, inElementType) &&
           !grid.testTileElement(destination, ElementType.Stone) &&
           (!allowWaterType || !grid.testTileElement(destination, ElementType.Water)) {
          return false, path;
        }
      }
      found, outPath := AstarSearch(start, destination, ElementMask.TransitColor(inElementType, allowWaterType), TestHeight);
    }

    /** GetShortestPath: the A* search with every masked colour passable and no
        block test. */
    method GetShortestPath(start: Coord, destination: Coord) returns (found: bool, outPath: seq<Coord>)
      requires Valid() && grid.Valid()
      modifies nodePool, openList
      ensures Answers(AstarRules(grid, start, destination, ElementMask.Any, TestNone), destination, found, outPath)
    {
      found, outPath := AstarSearch(start, destination, ElementMask.Any, TestNone);
    }
  }

  /** What the parent walk from the popped destination node gives: a valid
      path from start to destination that avoids start, is empty exactly when
      start is the destination, and costs less than INT_MAX. */
  lemma FoundPathSound(s: Search, nodes: seq<SearchNode>, nodeMap: map<Coord, int>, i: int)
    requires Structure(s, nodes, nodeMap) && Reached(nodes, i)
    requires s.ord.ByTotal? && s.limit == INT_MAX && s.ord.destination == nodes[i].position
    ensures Chained(nodes)
    ensures var path := PathBack(nodes, i);
      ValidBackPath(s, path) && Target(s.origin, path) == s.ord.destination && s.origin !in path &&
      BackCost(s.grid, s.origin, path) < INT_MAX && (path == [] <==> s.origin == s.ord.destination)
  {
    ReachedBelowMax(s, nodes, nodeMap, i);
    PathBackSound(s, nodes, nodeMap, i);
    if i != 0 && s.origin == s.ord.destination {
      IndexedPositionsDistinct(s.grid, nodes, nodeMap, i, 0);
    }
  }
}
