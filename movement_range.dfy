/** The movement-range engine (UMovementRange): a budget-bounded uniform-cost
    flood fill over the grid, followed by a filter that keeps only the tiles
    from which a tile of a stoppable colour can still be reached. */
module Dijkstra {
  import opened Grid
  import ElementMask
  import opened Pathfinding
  import opened SearchSpec
  import opened SearchSteps

  /** The rules of the outer flood fill from position with budget distance:
      the origin is exempt from the block test and may be left whatever its
      colour; every other tile left must have a colour in pathColor. */
  function RangeSearch(g: HexGrid, position: Coord, distance: int, pathColor: ElementMask.Mask,
                       nodeBlockTest: BlockTest): Search
  {
    Search(g, position, position, nodeBlockTest, Within(pathColor, true), distance, ByCost)
  }

  /** The rules of the nested search from position: only the engine's start is
      exempt from the block test, and tiles of any colour may be left. */
  function NestedSearch(g: HexGrid, position: Coord, start: Coord, distance: int, nodeBlockTest: BlockTest): Search
  {
    Search(g, position, start, nodeBlockTest, Unchecked, distance, ByCost)
  }

  /** How a tile got into the flood fill's output: a back path from the origin
      and the cost the tile had when it was stored. */
  datatype Reach = Reach(back: seq<Coord>, cost: int)

  /** w shows that tile t may be stored: its back path is valid under the
      range rules, costs at most w.cost, w.cost is within the budget, and a tile
      other than the origin has a colour fit to stop on at the budget's edge
      (destinationColor) or to pass through below it (pathColor). */
  ghost predicate StoredBy(s: Search, destinationColor: ElementMask.Mask, pathColor: ElementMask.Mask, t: Coord, w: Reach)
  {
    ValidBackPath(s, w.back) && Target(s.origin, w.back) == t &&
    BackCost(s.grid, s.origin, w.back) <= w.cost <= s.limit &&
    (t != s.origin ==>
      (w.cost == s.limit ==> ElementMask.Allows(destinationColor, s.grid.tileData(t).topType)) &&
      (w.cost < s.limit ==> ElementMask.Allows(pathColor, s.grid.tileData(t).topType)))
  }

  ghost predicate Storable(s: Search, destinationColor: ElementMask.Mask, pathColor: ElementMask.Mask, t: Coord)
  {
    exists w :: StoredBy(s, destinationColor, pathColor, t, w)
  }

  /** back shows that from s.origin a tile whose colour is in elementType is
      reachable within s.limit under the nested search's rules. */
  ghost predicate ReachesColor(s: Search, elementType: ElementMask.Mask, back: seq<Coord>)
  {
    ValidBackPath(s, back) && BackCost(s.grid, s.origin, back) <= s.limit &&
    ElementMask.Allows(elementType, s.grid.tileData(Target(s.origin, back)).topType)
  }

  /** How a tile survives the filter: it is reached from the origin at cost at
      most c, and from it a tile of a stoppable colour is reached within the
      remaining budget distance - c. */
  datatype Survival = Survival(toTile: seq<Coord>, c: int, onward: seq<Coord>)

  ghost predicate SurvivesBy(s: Search, start: Coord, destinationColor: ElementMask.Mask, t: Coord, w: Survival)
  {
    ValidBackPath(s, w.toTile) && Target(s.origin, w.toTile) == t &&
    BackCost(s.grid, s.origin, w.toTile) <= w.c <= s.limit &&
    ReachesColor(NestedSearch(s.grid, t, start, s.limit - w.c, s.test), destinationColor, w.onward)
  }

  ghost predicate Survives(s: Search, start: Coord, destinationColor: ElementMask.Mask, t: Coord)
  {
    exists w :: SurvivesBy(s, start, destinationColor, t, w)
  }

  /** The colours a walker may stop on: its own, Stone with lightningSpecial,
      and Water when allowed. */
  function DestinationColor(element: ElementType, allowWaterType: bool, lightningSpecial: bool): (m: ElementMask.Mask)
    ensures forall e :: ElementMask.Allows(m, e) <==>
      ElementMask.IsMaskedElement(e) &&
      (e == element || (lightningSpecial && e == ElementType.Stone) || (allowWaterType && e == ElementType.Water))
  {
    var m := ElementMask.MapColor(element);
    var m := if lightningSpecial then m | ElementMask.Stone else m;
    if allowWaterType then m | ElementMask.Water else m
  }

  /** Every stoppable colour may also be crossed. */
  lemma DestinationWithinTransit(element: ElementType, allowWaterType: bool, lightningSpecial: bool, e: ElementType)
    ensures ElementMask.Allows(DestinationColor(element, allowWaterType, lightningSpecial), e) ==>
      ElementMask.Allows(ElementMask.TransitColor(element, allowWaterType), e)
  {
  }

  /** The neighbour loop shared by both searches of this engine: each
      neighbour that passes the block test (or is the exempt tile) and is
      strictly cheaper through node cur gets cur as parent and is opened. */
  method RelaxNeighbors(pool: NodePool, list: OpenList, cur: int, exempt: Coord, nodeBlockTest: BlockTest, ghost s: Search)
    requires list.nodePool == pool && pool.grid == s.grid && s.grid.Valid()
    requires s.exempt == exempt && s.test == nodeBlockTest && s.ord == ByCost
    requires SearchInv(s, pool.nodes, pool.nodeMap, list.items) && Reached(pool.nodes, cur)
    requires pool.nodes[cur].cost < s.limit ==> TransitOk(s, pool.nodes[cur].position)
    modifies pool, list
    ensures SearchInv(s, pool.nodes, pool.nodeMap, list.items)
    ensures Grows(old(pool.nodes), old(pool.nodeMap), pool.nodes, pool.nodeMap)
    ensures Potential(s, pool.nodes, pool.nodeMap) < old(Potential(s, pool.nodes, pool.nodeMap)) ||
      (Potential(s, pool.nodes, pool.nodeMap) == old(Potential(s, pool.nodes, pool.nodeMap)) && list.items == old(list.items))
    ensures PoolState(pool.nodes, pool.nodeMap, list.items) ==
      VisitNeighbors(s, PoolState(old(pool.nodes), old(pool.nodeMap), old(list.items)), cur, s.grid.neighbors(old(pool.nodes[cur].position)))
  {
    ghost var nodes0, map0, items0 := pool.nodes, pool.nodeMap, list.items;
    ghost var p0 := Potential(s, nodes0, map0);
    var currNodePos := pool.nodes[cur].position;
    var neighbors := pool.grid.neighbors(currNodePos);
    var i := 0;
    while i < |neighbors|
      invariant 0 <= i <= |neighbors|
      invariant SearchInv(s, pool.nodes, pool.nodeMap, list.items) && Reached(pool.nodes, cur)
      invariant pool.nodes[cur] == nodes0[cur]
      invariant Grows(nodes0, map0, pool.nodes, pool.nodeMap)
      invariant Potential(s, pool.nodes, pool.nodeMap) < p0 ||
        (Potential(s, pool.nodes, pool.nodeMap) == p0 && list.items == items0)
      invariant PoolState(pool.nodes, pool.nodeMap, list.items) == VisitNeighbors(s, PoolState(nodes0, map0, items0), cur, neighbors[..i])
    {
      ghost var nodes1, map1, items1 := pool.nodes, pool.nodeMap, list.items;
      RelaxNeighbor(pool, list, cur, neighbors[i], exempt, nodeBlockTest, s);
      GrowsTransitive(nodes0, map0, nodes1, map1, pool.nodes, pool.nodeMap);
      VisitNeighborsNext(s, PoolState(nodes0, map0, items0), cur, neighbors, i);
      i := i + 1;
    }
    assert neighbors[..i] == neighbors;
  }

  /** One iteration of the neighbour loop, for neighbour neighborNodePos of cur. */
  method RelaxNeighbor(pool: NodePool, list: OpenList, cur: int, neighborNodePos: Coord, exempt: Coord,
                       nodeBlockTest: BlockTest, ghost s: Search)
    requires list.nodePool == pool && pool.grid == s.grid && s.grid.Valid()
    requires s.exempt == exempt && s.test == nodeBlockTest && s.ord == ByCost
    requires SearchInv(s, pool.nodes, pool.nodeMap, list.items) && Reached(pool.nodes, cur)
    requires neighborNodePos in s.grid.neighbors(pool.nodes[cur].position)
    requires pool.nodes[cur].cost < s.limit ==> TransitOk(s, pool.nodes[cur].position)
    modifies pool, list
    ensures SearchInv(s, pool.nodes, pool.nodeMap, list.items) && Reached(pool.nodes, cur)
    ensures pool.nodes[cur] == old(pool.nodes[cur])
    ensures Grows(old(pool.nodes), old(pool.nodeMap), pool.nodes, pool.nodeMap)
    ensures Potential(s, pool.nodes, pool.nodeMap) < old(Potential(s, pool.nodes, pool.nodeMap)) ||
      (Potential(s, pool.nodes, pool.nodeMap) == old(Potential(s, pool.nodes, pool.nodeMap)) && list.items == old(list.items))
    ensures PoolState(pool.nodes, pool.nodeMap, list.items) ==
      VisitNeighbor(s, PoolState(old(pool.nodes), old(pool.nodeMap), old(list.items)), cur, neighborNodePos)
  {
    var currNodePos := pool.nodes[cur].position;
    ghost var nodes0, map0 := pool.nodes, pool.nodeMap;
    ghost var items0 := list.items;
    var neighborIndex := FindNode(pool, list, neighborNodePos, s);
    VisitNeighborAt(s, PoolState(nodes0, map0, items0), cur, neighborNodePos, pool.nodes, pool.nodeMap, neighborIndex);
    ghost var step := RelaxStep(s, pool.nodes, items0, cur, neighborIndex);
    if neighborNodePos == exempt || RunTest(nodeBlockTest, pool.nodes[cur], pool.nodes[neighborIndex], pool.grid) {
      var newCost := pool.nodes[cur].cost + pool.grid.cost(currNodePos, neighborNodePos);
      RelaxStepWith(s, pool.nodes, items0, cur, neighborIndex, newCost, 0);
      if newCost < pool.nodes[neighborIndex].cost {
        ghost var nodes1, map1 := pool.nodes, pool.nodeMap;
        Improve(pool, list, cur, neighborIndex, newCost, s);
        GrowsTransitive(nodes0, map0, nodes1, map1, pool.nodes, pool.nodeMap);
        assert (pool.nodes, list.items) == step;
        return;
      }
    }
    assert (pool.nodes, list.items) == step;
  }

  /** Gives neighbour j the cheaper cost newCost through cur, with cur as its
      parent, and opens it if it is not open. */
  method Improve(pool: NodePool, list: OpenList, cur: int, j: int, newCost: int, ghost s: Search)
    requires list.nodePool == pool && pool.grid == s.grid && s.ord == ByCost
    requires SearchInv(s, pool.nodes, pool.nodeMap, list.items) && Reached(pool.nodes, cur) && 0 <= j < |pool.nodes|
    requires CanRelax(s, pool.nodes, cur, j, newCost, 0)
    modifies pool, list
    ensures SearchInv(s, pool.nodes, pool.nodeMap, list.items) && Reached(pool.nodes, cur)
    ensures pool.nodes[cur] == old(pool.nodes[cur]) && pool.nodeMap == old(pool.nodeMap)
    ensures Grows(old(pool.nodes), old(pool.nodeMap), pool.nodes, pool.nodeMap)
    ensures Potential(s, pool.nodes, pool.nodeMap) < old(Potential(s, pool.nodes, pool.nodeMap))
    ensures pool.nodes == old(pool.nodes)[j := Relaxed(ByCost, old(pool.nodes[j]), old(pool.nodes[cur].position), cur, newCost, 0).(isOpened := true)]
    ensures list.items == if old(pool.nodes[j].isOpened) then old(list.items) else old(list.items) + [j]
  {
    ghost var nodes1, map1, items1 := pool.nodes, pool.nodeMap, list.items;
    var currNodePos := pool.nodes[cur].position;
    ImproveKeepsInv(s, nodes1, map1, items1, cur, j, newCost, 0);
    IndexedAt(pool.grid, nodes1, map1, j);
    pool.nodes := pool.nodes[j := pool.nodes[j].(
      cost := newCost, parentPos := currNodePos, parentIndex := cur, isClosed := false)];
    if !pool.nodes[j].isOpened {
      list.Push(j);
    }
    assert pool.nodes == nodes1[j := Relaxed(s.ord, nodes1[j], currNodePos, cur, newCost, 0).(isOpened := true)];
    assert list.items == if nodes1[j].isOpened then items1 else items1 + [j];
  }

  /** A reached node within the budget whose colour passes the flood fill's
      test may be stored: the walk along its parents is the witness. */
  lemma StoreReached(s: Search, destinationColor: ElementMask.Mask, pathColor: ElementMask.Mask,
                     nodes: seq<SearchNode>, nodeMap: map<Coord, int>, i: int)
    requires s.ord == ByCost && s.transit == Within(pathColor, true) && s.exempt == s.origin
    requires Structure(s, nodes, nodeMap) && Reached(nodes, i) && nodes[i].cost <= s.limit
    requires nodes[i].position != s.origin ==>
      (nodes[i].cost == s.limit ==> ElementMask.Allows(destinationColor, nodes[i].tileData.topType)) &&
      (nodes[i].cost != s.limit ==> ElementMask.Allows(pathColor, nodes[i].tileData.topType))
    ensures Storable(s, destinationColor, pathColor, nodes[i].position)
    ensures Recorded(nodes, nodeMap, nodes[i].position, s.limit)
  {
    IndexedAt(s.grid, nodes, nodeMap, i);
    PathBackSound(s, nodes, nodeMap, i);
    var w := Reach(PathBack(nodes, i), nodes[i].cost);
    assert StoredBy(s, destinationColor, pathColor, nodes[i].position, w);
  }

  /** What the flood fill keeps of its output: the origin is stored first, and
      only with a budget that is not negative; every stored tile may be stored
      and keeps a reached node within the budget. */
  ghost predicate Filled(s: Search, destinationColor: ElementMask.Mask, pathColor: ElementMask.Mask,
                         nodes: seq<SearchNode>, nodeMap: map<Coord, int>, out: seq<Coord>)
  {
    (out != [] ==> out[0] == s.origin && s.limit >= 0) &&
    forall t :: t in out ==> Storable(s, destinationColor, pathColor, t) && Recorded(nodes, nodeMap, t, s.limit)
  }

  /** The flood fill's colour test on a popped node within the budget: the
      origin always passes; a node at the budget's edge needs a colour it may
      stop on, any other one a colour it may pass through. */
  function ColorPasses(position: Coord, distance: int, destinationColor: ElementMask.Mask,
                       pathColor: ElementMask.Mask, n: SearchNode): bool
  {
    if n.position == position then true
    else
      var color := ElementMask.MapColor(n.tileData.topType);
      if n.cost == distance then color & destinationColor != ElementMask.None
      else color & pathColor != ElementMask.None
  }

  /** The output facts survive a step that only grows the pool. */
  lemma FillGrows(s: Search, destinationColor: ElementMask.Mask, pathColor: ElementMask.Mask,
                  nodes: seq<SearchNode>, nodeMap: map<Coord, int>,
                  nodes': seq<SearchNode>, nodeMap': map<Coord, int>, out: seq<Coord>)
    requires Filled(s, destinationColor, pathColor, nodes, nodeMap, out) && Grows(nodes, nodeMap, nodes', nodeMap')
    ensures Filled(s, destinationColor, pathColor, nodes', nodeMap', out)
  {
    GrowsKeepsRecorded(nodes, nodeMap, nodes', nodeMap', out, s.limit);
  }

  /** A reached node within the limit whose colour is in elementType shows
      that such a tile is reachable. */
  lemma ReachedColorWitness(s: Search, elementType: ElementMask.Mask, nodes: seq<SearchNode>,
                            nodeMap: map<Coord, int>, i: int)
    requires Structure(s, nodes, nodeMap) && Reached(nodes, i) && nodes[i].cost <= s.limit
    requires ElementMask.Allows(elementType, nodes[i].tileData.topType)
    ensures exists back :: ReachesColor(s, elementType, back)
  {
    IndexedAt(s.grid, nodes, nodeMap, i);
    PathBackSound(s, nodes, nodeMap, i);
    assert ReachesColor(s, elementType, PathBack(nodes, i));
  }

  /** out lists raw's elements at the strictly increasing positions kept. */
  ghost predicate SubsequenceAt(out: seq<Coord>, raw: seq<Coord>, kept: seq<int>)
  {
    |kept| == |out| &&
    (forall k :: 0 <= k < |kept| ==> 0 <= kept[k] < |raw| && out[k] == raw[kept[k]]) &&
    (forall k, l :: 0 <= k < l < |kept| ==> kept[k] < kept[l])
  }

  ghost predicate AllSurvive(s: Search, start: Coord, destinationColor: ElementMask.Mask, ts: seq<Coord>)
  {
    forall t :: t in ts ==> Survives(s, start, destinationColor, t)
  }

  /** The filter's survivor prefix grows by one tile that survives; a prefix
      as long as the list is the list. */
  lemma AllSurviveNext(s: Search, start: Coord, destinationColor: ElementMask.Mask, ts: seq<Coord>, i: int)
    requires 0 <= i < |ts| && AllSurvive(s, start, destinationColor, ts[..i]) && Survives(s, start, destinationColor, ts[i])
    ensures AllSurvive(s, start, destinationColor, ts[..i + 1])
  {
    assert ts[..i + 1] == ts[..i] + [ts[i]];
  }

  lemma AllSurviveWhole(s: Search, start: Coord, destinationColor: ElementMask.Mask, ts: seq<Coord>)
    requires AllSurvive(s, start, destinationColor, ts[..|ts|])
    ensures AllSurvive(s, start, destinationColor, ts)
  {
    assert ts[..|ts|] == ts;
  }

  /** Dropping position i keeps a subsequence a subsequence. */
  lemma SubsequenceRemove(out: seq<Coord>, raw: seq<Coord>, kept: seq<int>, i: int)
    requires SubsequenceAt(out, raw, kept) && 0 <= i < |out|
    ensures SubsequenceAt(out[..i] + out[i + 1..], raw, kept[..i] + kept[i + 1..])
  {
    var out', kept' := out[..i] + out[i + 1..], kept[..i] + kept[i + 1..];
    forall k | 0 <= k < |kept'|
      ensures kept'[k] == (if k < i then kept[k] else kept[k + 1]) && out'[k] == (if k < i then out[k] else out[k + 1])
    {
    }
    forall k, l | 0 <= k < l < |kept'| ensures kept'[k] < kept'[l] {
      assert kept'[k] == (if k < i then kept[k] else kept[k + 1]);
      assert kept'[l] == (if l < i then kept[l] else kept[l + 1]);
    }
  }

  /** Removing position i of ts keeps every other value in it. */
  /** Every tile of raw whose own colour may be stopped on is in ts. */
  ghost predicate KeepsStoppable(g: HexGrid, mask: ElementMask.Mask, raw: seq<Coord>, ts: seq<Coord>)
  {
    forall t :: t in raw && ElementMask.Allows(mask, g.tileData(t).topType) ==> t in ts
  }

  /** Dropping tile i of the filter's list, one that failed its nested test
      and so may not be stopped on, keeps the list an ordered subsequence of
      raw, keeps the survivors before i, and keeps every stoppable tile. */
  lemma DropFailed(s: Search, start: Coord, mask: ElementMask.Mask, raw: seq<Coord>,
                   ts: seq<Coord>, kept: seq<int>, i: int)
    requires SubsequenceAt(ts, raw, kept) && 0 <= i < |ts|
    requires AllSurvive(s, start, mask, ts[..i]) && KeepsStoppable(s.grid, mask, raw, ts)
    requires !ElementMask.Allows(mask, s.grid.tileData(ts[i]).topType)
    ensures var ts' := ts[..i] + ts[i + 1..];
      SubsequenceAt(ts', raw, kept[..i] + kept[i + 1..]) &&
      AllSurvive(s, start, mask, ts'[..i]) && KeepsStoppable(s.grid, mask, raw, ts')
  {
    RemoveKeepsStoppable(s.grid, mask, raw, ts, i);
    SubsequenceRemove(ts, raw, kept, i);
    assert (ts[..i] + ts[i + 1..])[..i] == ts[..i];
  }

  /** Removing a tile that may not be stopped on keeps every stoppable tile of raw. */
  lemma RemoveKeepsStoppable(g: HexGrid, mask: ElementMask.Mask, raw: seq<Coord>, ts: seq<Coord>, i: int)
    requires 0 <= i < |ts| && !ElementMask.Allows(mask, g.tileData(ts[i]).topType)
    requires KeepsStoppable(g, mask, raw, ts)
    ensures KeepsStoppable(g, mask, raw, ts[..i] + ts[i + 1..])
  {
    forall t | t in raw && ElementMask.Allows(mask, g.tileData(t).topType)
      ensures t in ts[..i] + ts[i + 1..]
    {
      RemoveKeepsOthers(ts, i, t);
    }
  }

  lemma RemoveKeepsOthers(ts: seq<Coord>, i: int, t: Coord)
    requires 0 <= i < |ts| && t in ts && t != ts[i]
    ensures t in ts[..i] + ts[i + 1..]
  {
    var k :| 0 <= k < |ts| && ts[k] == t;
    if k < i {
      assert (ts[..i] + ts[i + 1..])[k] == t;
    } else {
      assert (ts[..i] + ts[i + 1..])[k - 1] == t;
    }
  }

  /** A reached node within the budget from which the nested search with the
      remaining budget finds a stoppable colour makes its tile survive. */
  lemma SurvivalWitness(s: Search, start: Coord, destinationColor: ElementMask.Mask,
                        nodes: seq<SearchNode>, nodeMap: map<Coord, int>, i: int, nested: Search)
    requires Structure(s, nodes, nodeMap) && Reached(nodes, i) && nodes[i].cost <= s.limit
    requires nested == NestedSearch(s.grid, nodes[i].position, start, s.limit - nodes[i].cost, s.test)
    requires exists back :: ReachesColor(nested, destinationColor, back)
    ensures Survives(s, start, destinationColor, nodes[i].position)
  {
    PathBackSound(s, nodes, nodeMap, i);
    var onward :| ReachesColor(nested, destinationColor, onward);
    assert SurvivesBy(s, start, destinationColor, nodes[i].position, Survival(PathBack(nodes, i), nodes[i].cost, onward));
  }

  /** UMovementRange: the grid, the engine's own pool and open list, and the
      walker's start, which the nested searches exempt from the block test. */
  class MovementRange {
    const grid: HexGrid
    const nodePool: NodePool
    const openList: OpenList
    var start: Coord

    ghost predicate Valid()
    {
      openList.nodePool == nodePool && nodePool.grid == grid
    }

    /** Construction followed by Initialize: the pool is bound to the grid. */
    constructor (grid: HexGrid)
      ensures this.grid == grid && Valid() && fresh(nodePool) && fresh(openList)
      ensures nodePool.nodes == [] && openList.items == []
    {
      this.grid := grid;
      var pool := new NodePool(grid);
      nodePool := pool;
      openList := new OpenList(pool);
      start := Coord(0, 0);
    }

    /** One pass of the flood fill's loop: pop the cheapest open node and close
        it; stop (done) if it is over budget; skip it if its colour fails;
        otherwise store it and relax its neighbours. */
    method VisitNext(position: Coord, distance: int, destinationColor: ElementMask.Mask,
                     pathColor: ElementMask.Mask, nodeBlockTest: BlockTest, out: seq<Coord>, ghost s: Search)
      returns (out': seq<Coord>, done: bool, ghost index: int, ghost poppedItems: seq<int>)
      requires Valid() && grid.Valid() && s == RangeSearch(grid, position, distance, pathColor, nodeBlockTest)
      requires SearchInv(s, nodePool.nodes, nodePool.nodeMap, openList.items)
      requires Filled(s, destinationColor, pathColor, nodePool.nodes, nodePool.nodeMap, out)
      requires |openList.items| > 0 && (out == [] ==> openList.items == [0])
      modifies nodePool, openList
      ensures SearchInv(s, nodePool.nodes, nodePool.nodeMap, openList.items)
      ensures Filled(s, destinationColor, pathColor, nodePool.nodes, nodePool.nodeMap, out')
      ensures done ==> (out' != [] <==> distance >= 0)
      ensures !done ==> out' != []
      ensures !done ==>
        Potential(s, nodePool.nodes, nodePool.nodeMap) < old(Potential(s, nodePool.nodes, nodePool.nodeMap)) ||
        (Potential(s, nodePool.nodes, nodePool.nodeMap) == old(Potential(s, nodePool.nodes, nodePool.nodeMap)) &&
         |openList.items| < old(|openList.items|))
      // The popped node: a cheapest open one; the list minus it is poppedItems.
      ensures 0 <= index < |old(nodePool.nodes)| && index in old(openList.items)
      ensures forall j :: j in old(openList.items) ==> old(nodePool.nodes[j].cost) >= old(nodePool.nodes[index].cost)
      ensures multiset(poppedItems) == multiset(old(openList.items)) - multiset{index}
      // Done exactly when the popped node is over budget.
      ensures done <==> old(nodePool.nodes[index].cost) > distance
      // It is stored exactly when it is within budget and its colour passes
      // (the origin always does; at the budget's edge the stop mask decides,
      // below it the cross mask); only then are its neighbours relaxed.
      ensures var n := old(nodePool.nodes[index]);
        var stored := !done && (n.position == position ||
          (n.cost == distance && ElementMask.Allows(destinationColor, n.tileData.topType)) ||
          (n.cost != distance && ElementMask.Allows(pathColor, n.tileData.topType)));
        var popped := PoolState(old(nodePool.nodes)[index := n.(isOpened := false, isClosed := true)], old(nodePool.nodeMap), poppedItems);
        out' == (if stored then out + [n.position] else out) &&
        PoolState(nodePool.nodes, nodePool.nodeMap, openList.items) ==
          (if stored then VisitNeighbors(s, popped, index, grid.neighbors(n.position)) else popped)
    {
      ghost var nodes0, map0 := nodePool.nodes, nodePool.nodeMap;
      var currNodeIndex := PopAndClose(nodePool, openList, s);
      index, poppedItems := currNodeIndex, openList.items;
      FillGrows(s, destinationColor, pathColor, nodes0, map0, nodePool.nodes, nodePool.nodeMap, out);
      if out == [] {
        assert currNodeIndex == 0;
      }
      out', done := SettlePopped(position, distance, destinationColor, pathColor, nodeBlockTest, out, currNodeIndex, s);
    }

    /** The rest of a pass, for the node just popped and closed: done when it
        is over budget, otherwise stored and its neighbours relaxed when its
        colour passes. */
    method SettlePopped(position: Coord, distance: int, destinationColor: ElementMask.Mask, pathColor: ElementMask.Mask,
                        nodeBlockTest: BlockTest, out: seq<Coord>, currNodeIndex: int, ghost s: Search)
      returns (out': seq<Coord>, done: bool)
      requires Valid() && grid.Valid() && s == RangeSearch(grid, position, distance, pathColor, nodeBlockTest)
      requires SearchInv(s, nodePool.nodes, nodePool.nodeMap, openList.items)
      requires Filled(s, destinationColor, pathColor, nodePool.nodes, nodePool.nodeMap, out)
      requires Reached(nodePool.nodes, currNodeIndex) && (out == [] ==> currNodeIndex == 0)
      modifies nodePool, openList
      ensures SearchInv(s, nodePool.nodes, nodePool.nodeMap, openList.items)
      ensures Filled(s, destinationColor, pathColor, nodePool.nodes, nodePool.nodeMap, out')
      ensures done ==> (out' != [] <==> distance >= 0)
      ensures !done ==> out' != []
      ensures Potential(s, nodePool.nodes, nodePool.nodeMap) < old(Potential(s, nodePool.nodes, nodePool.nodeMap)) ||
        (Potential(s, nodePool.nodes, nodePool.nodeMap) == old(Potential(s, nodePool.nodes, nodePool.nodeMap)) &&
         openList.items == old(openList.items))
      ensures done <==> old(nodePool.nodes[currNodeIndex].cost) > distance
      ensures var n := old(nodePool.nodes[currNodeIndex]);
        var stored := !done && (n.position == position ||
          (n.cost == distance && ElementMask.Allows(destinationColor, n.tileData.topType)) ||
          (n.cost != distance && ElementMask.Allows(pathColor, n.tileData.topType)));
        var popped := PoolState(old(nodePool.nodes), old(nodePool.nodeMap), old(openList.items));
        out' == (if stored then out + [n.position] else out) &&
        PoolState(nodePool.nodes, nodePool.nodeMap, openList.items) ==
          (if stored then VisitNeighbors(s, popped, currNodeIndex, grid.neighbors(n.position)) else popped)
    {
      out', done := out, false;
      ghost var n := nodePool.nodes[currNodeIndex];

      // The cheapest open node is over budget: done.
      if nodePool.nodes[currNodeIndex].cost > distance {
        done := true;
        return;
      }

      var currNodePos := nodePool.nodes[currNodeIndex].position;
      ghost var stored := n.position == position ||
        (n.cost == distance && ElementMask.Allows(destinationColor, n.tileData.topType)) ||
        (n.cost != distance && ElementMask.Allows(pathColor, n.tileData.topType));
      if !ColorPasses(position, distance, destinationColor, pathColor, nodePool.nodes[currNodeIndex]) {
        assert !stored;
        return;
      }
      assert stored;

      // Reachable: store it.
      IndexedAt(grid, nodePool.nodes, nodePool.nodeMap, currNodeIndex);
      StoreReached(s, destinationColor, pathColor, nodePool.nodes, nodePool.nodeMap, currNodeIndex);
      out' := out + [currNodePos];

      ghost var nodes1, map1 := nodePool.nodes, nodePool.nodeMap;
      RelaxNeighbors(nodePool, openList, currNodeIndex, position, nodeBlockTest, s);
      FillGrows(s, destinationColor, pathColor, nodes1, map1, nodePool.nodes, nodePool.nodeMap, out');
    }

    /** The budget-bounded flood fill from position. Every tile it outputs is
        reachable from position within distance under the range rules and has
        a colour fit to stop on (at the budget's edge) or to pass through
        (below it); the origin comes first, and exactly when the budget is not
        negative. The pool is left holding a reached node for every output
        tile, which the filter reads. */
    method GetTilesInRange(position: Coord, distance: int, destinationColor: ElementMask.Mask,
                           pathColor: ElementMask.Mask, nodeBlockTest: BlockTest)
      returns (outMovablePoints: seq<Coord>)
      requires Valid() && grid.Valid()
      modifies nodePool, openList
      ensures var s := RangeSearch(grid, position, distance, pathColor, nodeBlockTest);
        Structure(s, nodePool.nodes, nodePool.nodeMap) &&
        forall t :: t in outMovablePoints ==>
          Storable(s, destinationColor, pathColor, t) && Recorded(nodePool.nodes, nodePool.nodeMap, t, distance)
      ensures outMovablePoints != [] <==> distance >= 0
      ensures outMovablePoints != [] ==> outMovablePoints[0] == position
    {
      ghost var s := RangeSearch(grid, position, distance, pathColor, nodeBlockTest);
      nodePool.Reset();
      openList.Reset();
      var out: seq<Coord> := [];

      var startIndex := nodePool.Add(position);
      nodePool.nodes := nodePool.nodes[startIndex := nodePool.nodes[startIndex].(cost := 0)];
      openList.Push(startIndex);
      KickOffEstablishes(s, nodePool.nodes[0]);

      var done := false;
      while |openList.items| > 0 && !done
        invariant SearchInv(s, nodePool.nodes, nodePool.nodeMap, openList.items)
        invariant Filled(s, destinationColor, pathColor, nodePool.nodes, nodePool.nodeMap, out)
        invariant !done && out == [] ==> openList.items == [0]
        invariant done ==> (out != [] <==> distance >= 0)
        decreases !done, Potential(s, nodePool.nodes, nodePool.nodeMap), |openList.items|
      {
        PotentialNonNegative(s, nodePool.nodes, nodePool.nodeMap);
        ghost var index, popped;
        out, done, index, popped := VisitNext(position, distance, destinationColor, pathColor, nodeBlockTest, out, s);
      }
      outMovablePoints := out;
    }

    /** The nested search from position over a pool and list of its own (the
        engine's state is left alone): is a tile of a colour in elementType
        reachable within distance, with the engine's start exempt from the
        block test and tiles of any colour passable? A true answer comes with
        a witness path; the origin answers by itself when its own colour fits;
        a negative budget answers false. The tiles argument is not consulted. */
    method ReachableTileExist(position: Coord, distance: int, tiles: seq<Coord>,
                              elementType: ElementMask.Mask, nodeBlockTest: BlockTest)
      returns (found: bool)
      requires grid.Valid()
      ensures found ==> exists back :: ReachesColor(NestedSearch(grid, position, start, distance, nodeBlockTest), elementType, back)
      ensures distance < 0 ==> !found
      ensures distance >= 0 && ElementMask.Allows(elementType, grid.tileData(position).topType) ==> found
    {
      ghost var s := NestedSearch(grid, position, start, distance, nodeBlockTest);
      var pool := new NodePool(grid);
      var list := new OpenList(pool);

      var startIndex := pool.Add(position);
      pool.nodes := pool.nodes[startIndex := pool.nodes[startIndex].(cost := 0)];
      list.Push(startIndex);
      KickOffEstablishes(s, pool.nodes[0]);
      found := NestedFill(pool, list, position, distance, elementType, nodeBlockTest, s);
    }

    /** The loop of ReachableTileExist, over the nested search's own pool and
        list once the origin node is open. */
    method NestedFill(pool: NodePool, list: OpenList, position: Coord, distance: int,
                      elementType: ElementMask.Mask, nodeBlockTest: BlockTest, ghost s: Search)
      returns (found: bool)
      requires grid.Valid() && list.nodePool == pool && pool.grid == grid
      requires s == NestedSearch(grid, position, start, distance, nodeBlockTest)
      requires SearchInv(s, pool.nodes, pool.nodeMap, list.items) && list.items == [0]
      modifies pool, list
      ensures found ==> exists back :: ReachesColor(s, elementType, back)
      ensures distance < 0 ==> !found
      ensures distance >= 0 && ElementMask.Allows(elementType, grid.tileData(position).topType) ==> found
    {
      ghost var first := true;
      while |list.items| > 0
        invariant SearchInv(s, pool.nodes, pool.nodeMap, list.items)
        invariant first ==> list.items == [0]
        invariant !first ==> distance >= 0 && !ElementMask.Allows(elementType, grid.tileData(position).topType)
        decreases Potential(s, pool.nodes, pool.nodeMap), |list.items|
      {
        PotentialNonNegative(s, pool.nodes, pool.nodeMap);
        var stop;
        ghost var index, popped;
        stop, found, index, popped := NestedPass(pool, list, position, distance, elementType, nodeBlockTest, s, first);
        if stop {
          return;
        }
        first := false;
      }
      return false;
    }

    /** One pass of the nested flood fill: the cheapest open node is popped;
        an over-budget node stops the fill empty-handed, a node of a wanted
        colour stops it successfully, and any other node has its neighbours
        relaxed. The first pass (list [0]) pops the origin at cost 0. */
    method NestedPass(pool: NodePool, list: OpenList, position: Coord, distance: int,
                      elementType: ElementMask.Mask, nodeBlockTest: BlockTest, ghost s: Search, ghost first: bool)
      returns (stop: bool, found: bool, ghost index: int, ghost poppedItems: seq<int>)
      requires grid.Valid() && list.nodePool == pool && pool.grid == grid
      requires s == NestedSearch(grid, position, start, distance, nodeBlockTest)
      requires SearchInv(s, pool.nodes, pool.nodeMap, list.items) && |list.items| > 0
      requires first ==> list.items == [0]
      requires !first ==> distance >= 0 && !ElementMask.Allows(elementType, grid.tileData(position).topType)
      modifies pool, list
      ensures SearchInv(s, pool.nodes, pool.nodeMap, list.items)
      ensures found ==> stop && exists back :: ReachesColor(s, elementType, back)
      ensures stop && distance < 0 ==> !found
      ensures stop && distance >= 0 && ElementMask.Allows(elementType, grid.tileData(position).topType) ==> found
      ensures !stop ==> distance >= 0 && !ElementMask.Allows(elementType, grid.tileData(position).topType)
      ensures !stop ==>
        Potential(s, pool.nodes, pool.nodeMap) < old(Potential(s, pool.nodes, pool.nodeMap)) ||
        (Potential(s, pool.nodes, pool.nodeMap) == old(Potential(s, pool.nodes, pool.nodeMap)) && |list.items| < old(|list.items|))
      // The popped node: a cheapest open one; the list minus it is poppedItems.
      ensures 0 <= index < |old(pool.nodes)| && index in old(list.items)
      ensures forall j :: j in old(list.items) ==> old(pool.nodes[j].cost) >= old(pool.nodes[index].cost)
      ensures multiset(poppedItems) == multiset(old(list.items)) - multiset{index}
      // It stops exactly when the popped node is over budget or of a wanted
      // colour, and answers true exactly in the second case; otherwise its
      // neighbours are relaxed and the new pool and list are given exactly.
      ensures var n := old(pool.nodes[index]);
        (stop <==> n.cost > distance || ElementMask.Allows(elementType, n.tileData.topType)) &&
        (found <==> n.cost <= distance && ElementMask.Allows(elementType, n.tileData.topType))
      ensures var n := old(pool.nodes[index]);
        var popped := PoolState(old(pool.nodes)[index := n.(isOpened := false, isClosed := true)], old(pool.nodeMap), poppedItems);
        PoolState(pool.nodes, pool.nodeMap, list.items) ==
          (if stop then popped else VisitNeighbors(s, popped, index, grid.neighbors(n.position)))
    {
      var currNodeIndex := PopAndClose(pool, list, s);
      index, poppedItems := currNodeIndex, list.items;
      stop, found := NestedSettle(pool, list, position, distance, elementType, nodeBlockTest, s, first, currNodeIndex);
    }

    /** The rest of a nested pass, for the node just popped and closed. */
    method NestedSettle(pool: NodePool, list: OpenList, position: Coord, distance: int,
                        elementType: ElementMask.Mask, nodeBlockTest: BlockTest, ghost s: Search, ghost first: bool,
                        currNodeIndex: int)
      returns (stop: bool, found: bool)
      requires grid.Valid() && list.nodePool == pool && pool.grid == grid
      requires s == NestedSearch(grid, position, start, distance, nodeBlockTest)
      requires SearchInv(s, pool.nodes, pool.nodeMap, list.items) && Reached(pool.nodes, currNodeIndex)
      requires first ==> currNodeIndex == 0
      requires !first ==> distance >= 0 && !ElementMask.Allows(elementType, grid.tileData(position).topType)
      modifies pool, list
      ensures SearchInv(s, pool.nodes, pool.nodeMap, list.items)
      ensures found ==> stop && exists back :: ReachesColor(s, elementType, back)
      ensures stop && distance < 0 ==> !found
      ensures stop && distance >= 0 && ElementMask.Allows(elementType, grid.tileData(position).topType) ==> found
      ensures !stop ==> distance >= 0 && !ElementMask.Allows(elementType, grid.tileData(position).topType)
      ensures Potential(s, pool.nodes, pool.nodeMap) < old(Potential(s, pool.nodes, pool.nodeMap)) ||
        (Potential(s, pool.nodes, pool.nodeMap) == old(Potential(s, pool.nodes, pool.nodeMap)) && list.items == old(list.items))
      ensures var n := old(pool.nodes[currNodeIndex]);
        (stop <==> n.cost > distance || ElementMask.Allows(elementType, n.tileData.topType)) &&
        (found <==> n.cost <= distance && ElementMask.Allows(elementType, n.tileData.topType))
      ensures var popped := PoolState(old(pool.nodes), old(pool.nodeMap), old(list.items));
        PoolState(pool.nodes, pool.nodeMap, list.items) ==
          (if stop then popped else VisitNeighbors(s, popped, currNodeIndex, grid.neighbors(old(pool.nodes[currNodeIndex].position))))
    {
      IndexedAt(grid, pool.nodes, pool.nodeMap, currNodeIndex);
      ghost var n := pool.nodes[currNodeIndex];
      if first {
        assert n.position == position && n.cost == 0 && n.tileData == grid.tileData(position);
      }

      // The cheapest open node is over budget: nothing within reach.
      if pool.nodes[currNodeIndex].cost > distance {
        return true, false;
      }

      if ElementMask.Allows(elementType, pool.nodes[currNodeIndex].tileData.topType) {
        ReachedColorWitness(s, elementType, pool.nodes, pool.nodeMap, currNodeIndex);
        return true, true;
      }

      RelaxNeighbors(pool, list, currNodeIndex, start, nodeBlockTest, s);
      return false, false;
    }

    /** The movement range of a walker of element inElementType at position
        with budget distance. The flood fill's output (raw) is filtered, unless
        any destination is allowed, down to the tiles from which a tile the
        walker may stop on is still reachable with the budget left; the result
        keeps raw's order (kept lists the surviving positions of raw). */
    method GetMovementRange(position: Coord, distance: int, inElementType: ElementType,
                            allowWaterType: bool, lightningSpecial: bool, allowAnyDestination: bool)
      returns (outMovablePoints: seq<Coord>, ghost raw: seq<Coord>, ghost kept: seq<int>)
      requires Valid() && grid.Valid()
      modifies this, nodePool, openList
      ensures start == position
      ensures var pathColor := ElementMask.TransitColor(inElementType, allowWaterType);
        var destinationColor := if allowAnyDestination then ElementMask.Any
                                else DestinationColor(inElementType, allowWaterType, lightningSpecial);
        var s := RangeSearch(grid, position, distance, pathColor, TestHeight);
        (forall t :: t in raw ==> Storable(s, destinationColor, pathColor, t)) &&
        (raw != [] <==> distance >= 0) && (raw != [] ==> raw[0] == position) &&
        (!allowAnyDestination ==> AllSurvive(s, position, destinationColor, outMovablePoints)) &&
        (forall t :: t in raw && ElementMask.Allows(destinationColor, grid.tileData(t).topType) ==> t in outMovablePoints)
      ensures SubsequenceAt(outMovablePoints, raw, kept)
      ensures allowAnyDestination ==> outMovablePoints == raw
    {
      start := position;
      var destinationColor := DestinationColor(inElementType, allowWaterType, lightningSpecial);
      var pathColor := ElementMask.TransitColor(inElementType, allowWaterType);

      if allowAnyDestination {
        outMovablePoints := GetTilesInRange(position, distance, ElementMask.Any, pathColor, TestHeight);
        raw, kept := outMovablePoints, seq(|outMovablePoints|, k => k);
        return;
      }

      var tiles := GetTilesInRange(position, distance, destinationColor, pathColor, TestHeight);
      raw := tiles;
      outMovablePoints, kept := KeepSurvivors(tiles, distance, destinationColor, RangeSearch(grid, position, distance, pathColor, TestHeight));
    }

    /** The filter of GetMovementRange: each tile of raw, in order, is kept
        exactly when the nested search from it, with the budget its pool node
        leaves, reports a stoppable tile; removal does not disturb the order. */
    /** The test of one flood-fill tile: a nested search from it, with the
        budget its recorded cost leaves. True shows the tile survives; false
        means the tile's own colour may not be stopped on. */
    method TestSurvivor(pos: Coord, distance: int, tiles: seq<Coord>, destinationColor: ElementMask.Mask, ghost s: Search)
      returns (found: bool)
      requires Valid() && grid.Valid()
      requires s.grid == grid && s.limit == distance && s.origin == start && s.test == TestHeight
      requires Structure(s, nodePool.nodes, nodePool.nodeMap) && Recorded(nodePool.nodes, nodePool.nodeMap, pos, distance)
      modifies nodePool
      ensures found ==> Survives(s, start, destinationColor, pos)
      ensures !found ==> !ElementMask.Allows(destinationColor, grid.tileData(pos).topType)
      ensures nodePool.nodes == old(nodePool.nodes) && nodePool.nodeMap == old(nodePool.nodeMap)
    {
      var posIndex := nodePool.FindOrAdd(pos);
      found := ReachableTileExist(pos, distance - nodePool.nodes[posIndex].cost, tiles, destinationColor, TestHeight);
      if found {
        SurvivalWitness(s, start, destinationColor, nodePool.nodes, nodePool.nodeMap, posIndex,
          NestedSearch(grid, pos, start, distance - nodePool.nodes[posIndex].cost, TestHeight));
      }
    }

    method KeepSurvivors(raw: seq<Coord>, distance: int, destinationColor: ElementMask.Mask, ghost s: Search)
      returns (out: seq<Coord>, ghost kept: seq<int>)
      requires Valid() && grid.Valid()
      requires s.grid == grid && s.limit == distance && s.origin == start && s.test == TestHeight
      requires Structure(s, nodePool.nodes, nodePool.nodeMap)
      requires forall t :: t in raw ==> Recorded(nodePool.nodes, nodePool.nodeMap, t, distance)
      modifies nodePool
      ensures SubsequenceAt(out, raw, kept)
      ensures AllSurvive(s, start, destinationColor, out)
      // A tile that may itself be stopped on always survives.
      ensures forall t :: t in raw && ElementMask.Allows(destinationColor, grid.tileData(t).topType) ==> t in out
      ensures nodePool.nodes == old(nodePool.nodes) && nodePool.nodeMap == old(nodePool.nodeMap)
    {
      out, kept := raw, seq(|raw|, k => k);
      var i := 0;
      while i < |out|
        invariant 0 <= i <= |out|
        invariant SubsequenceAt(out, raw, kept)
        invariant AllSurvive(s, start, destinationColor, out[..i])
        invariant KeepsStoppable(grid, destinationColor, raw, out)
        invariant nodePool.nodes == old(nodePool.nodes) && nodePool.nodeMap == old(nodePool.nodeMap)
        decreases |out| - i
      {
        var pos := out[i];
        assert pos == raw[kept[i]];
        var found := TestSurvivor(pos, distance, out, destinationColor, s);
        if !found {
          DropFailed(s, start, destinationColor, raw, out, kept, i);
          out := out[..i] + out[i + 1..];
          kept := kept[..i] + kept[i + 1..];
        } else {
          AllSurviveNext(s, start, destinationColor, out, i);
          i := i + 1;
        }
      }
      AllSurviveWhole(s, start, destinationColor, out);
    }
  }
}
