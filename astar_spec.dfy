/** Why an A* search that runs out of open nodes has no path to report: every
    node the search has reached, closed and may leave has had each neighbour it
    may step onto relaxed at its current cost, and the destination stays on the
    open list from the moment it is reached until it is popped. Walking any
    allowed path from the origin whose running totals stay below INT_MAX then
    reaches the destination, which an empty open list rules out. */
module AstarSpec {
  import opened Grid
  import opened Pathfinding
  import opened SearchSpec
  import ElementMask

  /** Neighbour v has been relaxed through node cur at cur's cost: it has a
      node, and when the step through cur keeps the total below INT_MAX that
      node is reached at no more than the cost through cur. */
  ghost predicate NeighborDone(s: Search, nodes: seq<SearchNode>, nodeMap: map<Coord, int>, cur: int, v: Coord)
    requires s.ord.ByTotal? && 0 <= cur < |nodes|
  {
    var through := nodes[cur].cost + s.grid.cost(nodes[cur].position, v);
    v in nodeMap && 0 <= nodeMap[v] < |nodes| &&
    (through + s.grid.distance(v, s.ord.destination) < INT_MAX ==>
      Reached(nodes, nodeMap[v]) && nodes[nodeMap[v]].cost <= through)
  }

  /** The rules let node cur step onto v only if v is exempt or the block test allows it. */
  ghost predicate AllowedDone(s: Search, nodes: seq<SearchNode>, nodeMap: map<Coord, int>, cur: int, v: Coord)
    requires s.ord.ByTotal? && 0 <= cur < |nodes|
  {
    (v == s.exempt || StepAllowed(s.test, s.grid, nodes[cur].position, v)) ==> NeighborDone(s, nodes, nodeMap, cur, v)
  }

  /** Every neighbour the rules let node cur step onto has been relaxed through it. */
  ghost predicate Expanded(s: Search, nodes: seq<SearchNode>, nodeMap: map<Coord, int>, cur: int)
    requires s.ord.ByTotal? && 0 <= cur < |nodes|
  {
    forall v :: v in s.grid.neighbors(nodes[cur].position) ==> AllowedDone(s, nodes, nodeMap, cur, v)
  }

  /** Node i, when it is reached, off the open list and may be left, is expanded. */
  ghost predicate Settled(s: Search, nodes: seq<SearchNode>, nodeMap: map<Coord, int>, items: seq<int>, i: int)
    requires s.ord.ByTotal? && 0 <= i < |nodes|
  {
    Reached(nodes, i) && i !in items && TransitOk(s, nodes[i].position) ==> Expanded(s, nodes, nodeMap, i)
  }

  /** Every node but except (INDEX_NONE: every node) is settled. */
  ghost predicate AllSettled(s: Search, nodes: seq<SearchNode>, nodeMap: map<Coord, int>, items: seq<int>, except: int)
    requires s.ord.ByTotal?
  {
    forall i {:trigger Settled(s, nodes, nodeMap, items, i)} :: 0 <= i < |nodes| && i != except ==> Settled(s, nodes, nodeMap, items, i)
  }

  /** A reached destination node is on the open list. */
  ghost predicate DestinationOpen(s: Search, nodes: seq<SearchNode>, nodeMap: map<Coord, int>, items: seq<int>)
    requires s.ord.ByTotal?
  {
    s.ord.destination in nodeMap && Reached(nodes, nodeMap[s.ord.destination]) ==> nodeMap[s.ord.destination] in items
  }

  /** A step that only moves nodes onto the open list: a node reached and off
      the list afterwards was reached and off the list before, at the same cost. */
  ghost predicate OnlyOpened(nodes: seq<SearchNode>, items: seq<int>, nodes': seq<SearchNode>, items': seq<int>)
  {
    |nodes| <= |nodes'| &&
    forall i :: 0 <= i < |nodes'| && Reached(nodes', i) && i !in items' ==>
      i < |nodes| && Reached(nodes, i) && i !in items && nodes'[i].cost == nodes[i].cost
  }

  lemma OnlyOpenedTransitive(n0: seq<SearchNode>, i0: seq<int>, n1: seq<SearchNode>, i1: seq<int>, n2: seq<SearchNode>, i2: seq<int>)
    requires OnlyOpened(n0, i0, n1, i1) && OnlyOpened(n1, i1, n2, i2)
    ensures OnlyOpened(n0, i0, n2, i2)
  {
  }

  /** One neighbour visit of an A* expansion only opens nodes, and leaves the
      neighbour relaxed through cur. */
  lemma VisitNeighborSettles(s: Search, st: PoolState, cur: int, pos: Coord)
    requires s.ord.ByTotal? && SearchInv(s, st.nodes, st.nodeMap, st.items) && Reached(st.nodes, cur)
    requires pos in s.grid.tiles
    ensures var r := VisitNeighbor(s, st, cur, pos);
      |st.nodes| <= |r.nodes| && r.nodes[cur] == st.nodes[cur] &&
      OnlyOpened(st.nodes, st.items, r.nodes, r.items) && AllowedDone(s, r.nodes, r.nodeMap, cur, pos)
  {
    VisitNeighborOpens(s, st, cur, pos);
    VisitNeighborDone(s, st, cur, pos);
  }

  /** One relaxation step changes node j at most, and a changed j is open. */
  lemma RelaxStepShape(s: Search, nodes: seq<SearchNode>, items: seq<int>, cur: int, j: int)
    requires 0 <= cur < |nodes| && 0 <= j < |nodes| && (nodes[j].isOpened ==> j in items)
    ensures var r := RelaxStep(s, nodes, items, cur, j);
      |r.0| == |nodes| && items <= r.1 && (r.0[j] != nodes[j] ==> j in r.1) &&
      forall i :: 0 <= i < |nodes| && i != j ==> r.0[i] == nodes[i]
  {
  }

  /** One neighbour visit only appends nodes, keeps cur, and only opens. */
  lemma VisitNeighborOpens(s: Search, st: PoolState, cur: int, pos: Coord)
    requires s.ord.ByTotal? && SearchInv(s, st.nodes, st.nodeMap, st.items) && Reached(st.nodes, cur)
    requires pos in s.grid.tiles
    ensures var r := VisitNeighbor(s, st, cur, pos);
      |st.nodes| <= |r.nodes| && r.nodes[cur] == st.nodes[cur] && OnlyOpened(st.nodes, st.items, r.nodes, r.items)
  {
    var found := WithNode(s.grid, st.nodes, st.nodeMap, pos);
    var nodes, nodeMap := found.0, found.1;
    if pos !in st.nodeMap {
      AddKeepsInv(s, st.nodes, st.nodeMap, st.items, pos);
    }
    assert SearchInv(s, nodes, nodeMap, st.items);
    IndexedKey(s.grid, nodes, nodeMap, pos);
    var j := nodeMap[pos];
    assert OpenFlagOk(nodes, st.items, j);
    VisitNeighborAt(s, st, cur, pos, nodes, nodeMap, j);
    RelaxStepShape(s, nodes, st.items, cur, j);
    var r := VisitNeighbor(s, st, cur, pos);
    if r.nodes[j] != nodes[j] {
      // Relaxing cur through itself cannot lower its key.
      var newCost := nodes[cur].cost + s.grid.cost(nodes[cur].position, pos);
      RelaxStepWith(s, nodes, st.items, cur, j, newCost, newCost + s.grid.distance(pos, s.ord.destination));
      assert NodeOk(s, nodes, cur);
      assert j != cur;
    }
    forall i | 0 <= i < |r.nodes| && Reached(r.nodes, i) && i !in r.items
      ensures i < |st.nodes| && Reached(st.nodes, i) && i !in st.items && r.nodes[i].cost == st.nodes[i].cost
    {
      assert r.nodes[i] == nodes[i];
      if i < |st.nodes| {
        assert nodes[i] == st.nodes[i];
      }
    }
  }

  /** One neighbour visit leaves the neighbour relaxed through cur. */
  lemma VisitNeighborDone(s: Search, st: PoolState, cur: int, pos: Coord)
    requires s.ord.ByTotal? && SearchInv(s, st.nodes, st.nodeMap, st.items) && Reached(st.nodes, cur)
    requires pos in s.grid.tiles
    ensures var r := VisitNeighbor(s, st, cur, pos); AllowedDone(s, r.nodes, r.nodeMap, cur, pos)
  {
    var found := WithNode(s.grid, st.nodes, st.nodeMap, pos);
    var nodes, nodeMap := found.0, found.1;
    if pos !in st.nodeMap {
      AddKeepsInv(s, st.nodes, st.nodeMap, st.items, pos);
    }
    assert SearchInv(s, nodes, nodeMap, st.items);
    IndexedKey(s.grid, nodes, nodeMap, pos);
    var j := nodeMap[pos];
    IndexedAt(s.grid, nodes, nodeMap, j);
    VisitNeighborAt(s, st, cur, pos, nodes, nodeMap, j);
    StepAllowedAgrees(s.test, s.grid, nodes[cur], nodes[j]);
    var newCost := nodes[cur].cost + s.grid.cost(nodes[cur].position, pos);
    var newTotal := newCost + s.grid.distance(pos, s.ord.destination);
    RelaxStepWith(s, nodes, st.items, cur, j, newCost, newTotal);
    var r := VisitNeighbor(s, st, cur, pos);
    assert NodeOk(s, nodes, j) && NodeOk(s, nodes, cur);
    if nodes[j].parentIndex != INDEX_NONE {
      assert LinkOk(s, nodes, j);
    }
    var through := nodes[cur].cost + s.grid.cost(nodes[cur].position, pos);
    if (pos == s.exempt || RunTest(s.test, nodes[cur], nodes[j], s.grid)) && through + s.grid.distance(pos, s.ord.destination) < INT_MAX {
      if newTotal < nodes[j].totalCost {
        assert r.nodes == nodes[j := Relaxed(s.ord, nodes[j], nodes[cur].position, cur, newCost, newTotal).(isOpened := true)];
        assert r.nodes[j].cost == newCost;
      } else {
        assert r.nodes == nodes;
        assert nodes[j].totalCost < INT_MAX;
        if j != 0 {
          assert nodes[j].parentIndex != INDEX_NONE;
          assert nodes[j].totalCost == nodes[j].cost + s.grid.distance(pos, s.ord.destination);
        }
        assert Reached(nodes, j) && nodes[j].cost <= through;
      }
      assert NeighborDone(s, r.nodes, r.nodeMap, cur, pos);
    }
  }

  /** The first i neighbours in ns have been relaxed through cur. */
  ghost predicate DoneUpTo(s: Search, nodes: seq<SearchNode>, nodeMap: map<Coord, int>, cur: int, ns: seq<Coord>, i: int)
    requires s.ord.ByTotal? && 0 <= cur < |nodes| && 0 <= i <= |ns|
  {
    forall k :: 0 <= k < i ==> AllowedDone(s, nodes, nodeMap, cur, ns[k])
  }

  /** One A* neighbour visit through a node that may be left keeps the search
      invariant, leaves cur alone and only lowers costs. */
  lemma VisitNeighborKeepsInv(s: Search, st: PoolState, cur: int, pos: Coord)
    requires s.ord.ByTotal? && SearchInv(s, st.nodes, st.nodeMap, st.items) && Reached(st.nodes, cur)
    requires pos in s.grid.neighbors(st.nodes[cur].position) && pos in s.grid.tiles
    requires TransitOk(s, st.nodes[cur].position)
    ensures var r := VisitNeighbor(s, st, cur, pos);
      SearchInv(s, r.nodes, r.nodeMap, r.items) && Reached(r.nodes, cur) && Grows(st.nodes, st.nodeMap, r.nodes, r.nodeMap)
  {
    var found := WithNode(s.grid, st.nodes, st.nodeMap, pos);
    var nodes, nodeMap := found.0, found.1;
    if pos !in st.nodeMap {
      AddKeepsInv(s, st.nodes, st.nodeMap, st.items, pos);
    } else {
      assert Grows(st.nodes, st.nodeMap, nodes, nodeMap) by {
        forall i | 0 <= i < |st.nodes| ensures GrowsAt(st.nodes, nodes, i) { }
      }
    }
    IndexedKey(s.grid, nodes, nodeMap, pos);
    var j := nodeMap[pos];
    VisitNeighborAt(s, st, cur, pos, nodes, nodeMap, j);
    var newCost := nodes[cur].cost + s.grid.cost(nodes[cur].position, pos);
    var newTotal := newCost + s.grid.distance(pos, s.ord.destination);
    RelaxStepWith(s, nodes, st.items, cur, j, newCost, newTotal);
    if (pos == s.exempt || RunTest(s.test, nodes[cur], nodes[j], s.grid)) && newTotal < nodes[j].totalCost {
      ImproveKeepsInv(s, nodes, nodeMap, st.items, cur, j, newCost, newTotal);
      var nodes' := nodes[j := Relaxed(s.ord, nodes[j], nodes[cur].position, cur, newCost, newTotal).(isOpened := true)];
      GrowsTransitive(st.nodes, st.nodeMap, nodes, nodeMap, nodes', nodeMap);
    }
  }

  /** The A* neighbour loop over ns, on values: it keeps the search invariant,
      leaves cur alone, only opens nodes, and relaxes every neighbour in ns
      through cur. */
  lemma {:induction false} VisitNeighborsSettles(s: Search, st: PoolState, cur: int, ns: seq<Coord>)
    requires s.grid.Valid() && s.ord.ByTotal? && SearchInv(s, st.nodes, st.nodeMap, st.items) && Reached(st.nodes, cur)
    requires TransitOk(s, st.nodes[cur].position)
    requires forall v :: v in ns ==> v in s.grid.neighbors(st.nodes[cur].position)
    ensures var r := VisitNeighbors(s, st, cur, ns);
      SearchInv(s, r.nodes, r.nodeMap, r.items) && Reached(r.nodes, cur) && r.nodes[cur] == st.nodes[cur] &&
      Grows(st.nodes, st.nodeMap, r.nodes, r.nodeMap) &&
      OnlyOpened(st.nodes, st.items, r.nodes, r.items) && DoneUpTo(s, r.nodes, r.nodeMap, cur, ns, |ns|)
    decreases |ns|
  {
    if ns == [] {
      assert Grows(st.nodes, st.nodeMap, st.nodes, st.nodeMap) by {
        forall i | 0 <= i < |st.nodes| ensures GrowsAt(st.nodes, st.nodes, i) { }
      }
    } else {
      var pre, pos := ns[..|ns| - 1], ns[|ns| - 1];
      assert forall v :: v in pre ==> v in ns;
      VisitNeighborsSettles(s, st, cur, pre);
      var m := VisitNeighbors(s, st, cur, pre);
      var r := VisitNeighbor(s, m, cur, pos);
      assert r == VisitNeighbors(s, st, cur, ns);
      VisitNeighborKeepsInv(s, m, cur, pos);
      VisitNeighborSettles(s, m, cur, pos);
      GrowsTransitive(st.nodes, st.nodeMap, m.nodes, m.nodeMap, r.nodes, r.nodeMap);
      OnlyOpenedTransitive(st.nodes, st.items, m.nodes, m.items, r.nodes, r.items);
      forall k | 0 <= k < |ns| ensures AllowedDone(s, r.nodes, r.nodeMap, cur, ns[k]) {
        if k < |ns| - 1 {
          assert ns[k] == pre[k];
          NeighborDoneGrows(s, m.nodes, m.nodeMap, r.nodes, r.nodeMap, cur, ns[k]);
        }
      }
    }
  }

  /** The end of the A* neighbour loop: with every neighbour of cur relaxed,
      cur is settled too, so every node is, and the destination stays open. */
  lemma ExpandFinish(s: Search, nodes0: seq<SearchNode>, map0: map<Coord, int>, items0: seq<int>,
                     nodes: seq<SearchNode>, nodeMap: map<Coord, int>, items: seq<int>, cur: int)
    requires s.ord.ByTotal? && Structure(s, nodes0, map0) && Structure(s, nodes, nodeMap) && 0 <= cur < |nodes|
    requires Grows(nodes0, map0, nodes, nodeMap) && OnlyOpened(nodes0, items0, nodes, items)
    requires AllSettled(s, nodes0, map0, items0, cur) && DestinationOpen(s, nodes0, map0, items0)
    requires DoneUpTo(s, nodes, nodeMap, cur, s.grid.neighbors(nodes[cur].position), |s.grid.neighbors(nodes[cur].position)|)
    ensures AllSettled(s, nodes, nodeMap, items, INDEX_NONE) && DestinationOpen(s, nodes, nodeMap, items)
  {
    OpenedKeepsSettled(s, nodes0, map0, items0, nodes, nodeMap, items, cur);
    var ns := s.grid.neighbors(nodes[cur].position);
    forall v | v in ns ensures AllowedDone(s, nodes, nodeMap, cur, v) {
      var k :| 0 <= k < |ns| && ns[k] == v;
    }
    assert Expanded(s, nodes, nodeMap, cur);
    SettleLast(s, nodes, nodeMap, items, cur);
  }

  /** Every tile of a back path, with the cost of the path up to it plus its
      distance to destination, stays below INT_MAX: the totals A* can record. */
  ghost predicate TotalsBelowMax(g: HexGrid, origin: Coord, destination: Coord, back: seq<Coord>)
  {
    forall k :: 0 <= k < |back| ==> BackCost(g, origin, back[k..]) + g.distance(back[k], destination) < INT_MAX
  }

  /** No path the rules allow, with totals below INT_MAX, leads to destination. */
  ghost predicate NoPathWithin(s: Search, destination: Coord)
  {
    forall back :: ValidBackPath(s, back) && TotalsBelowMax(s.grid, s.origin, destination, back) ==>
      Target(s.origin, back) != destination
  }

  /** Relaxing is kept when costs only drop, nodes only get reached and the
      index only grows, as long as cur's cost and position stay. */
  lemma NeighborDoneGrows(s: Search, nodes: seq<SearchNode>, nodeMap: map<Coord, int>,
                          nodes': seq<SearchNode>, nodeMap': map<Coord, int>, cur: int, v: Coord)
    requires s.ord.ByTotal? && Grows(nodes, nodeMap, nodes', nodeMap') && 0 <= cur < |nodes|
    requires nodes'[cur].cost == nodes[cur].cost && nodes'[cur].position == nodes[cur].position
    requires AllowedDone(s, nodes, nodeMap, cur, v)
    ensures AllowedDone(s, nodes', nodeMap', cur, v)
  {
    if v == s.exempt || StepAllowed(s.test, s.grid, nodes[cur].position, v) {
      var j := nodeMap[v];
      assert GrowsAt(nodes, nodes', j);
    }
  }

  lemma ExpandedGrows(s: Search, nodes: seq<SearchNode>, nodeMap: map<Coord, int>,
                      nodes': seq<SearchNode>, nodeMap': map<Coord, int>, i: int)
    requires s.ord.ByTotal? && Grows(nodes, nodeMap, nodes', nodeMap') && 0 <= i < |nodes|
    requires nodes'[i].cost == nodes[i].cost && Expanded(s, nodes, nodeMap, i)
    ensures Expanded(s, nodes', nodeMap', i)
  {
    assert GrowsAt(nodes, nodes', i);
    forall v | v in s.grid.neighbors(nodes'[i].position) ensures AllowedDone(s, nodes', nodeMap', i, v) {
      NeighborDoneGrows(s, nodes, nodeMap, nodes', nodeMap', i, v);
    }
  }

  /** A step that only opens nodes keeps every node settled (but except) and
      keeps the destination open. */
  lemma OpenedKeepsSettled(s: Search, nodes: seq<SearchNode>, nodeMap: map<Coord, int>, items: seq<int>,
                           nodes': seq<SearchNode>, nodeMap': map<Coord, int>, items': seq<int>, except: int)
    requires s.ord.ByTotal? && Structure(s, nodes, nodeMap) && Structure(s, nodes', nodeMap')
    requires Grows(nodes, nodeMap, nodes', nodeMap') && OnlyOpened(nodes, items, nodes', items')
    requires AllSettled(s, nodes, nodeMap, items, except) && DestinationOpen(s, nodes, nodeMap, items)
    ensures AllSettled(s, nodes', nodeMap', items', except) && DestinationOpen(s, nodes', nodeMap', items')
  {
    forall i | 0 <= i < |nodes'| && i != except ensures Settled(s, nodes', nodeMap', items', i) {
      if Reached(nodes', i) && i !in items' && TransitOk(s, nodes'[i].position) {
        assert Settled(s, nodes, nodeMap, items, i);
        assert GrowsAt(nodes, nodes', i);
        ExpandedGrows(s, nodes, nodeMap, nodes', nodeMap', i);
      }
    }
    var d := s.ord.destination;
    if d in nodeMap' && Reached(nodes', nodeMap'[d]) && nodeMap'[d] !in items' {
      var i := nodeMap'[d];
      IndexedAt(s.grid, nodes, nodeMap, i);
      assert GrowsAt(nodes, nodes', i);
      IndexedKey(s.grid, nodes', nodeMap', d);
    }
  }

  /** Popping index and closing it leaves every other node settled, and the
      destination open unless it is the popped node. */
  lemma PopKeepsSettled(s: Search, nodes: seq<SearchNode>, nodeMap: map<Coord, int>, items: seq<int>,
                        nodes': seq<SearchNode>, items': seq<int>, index: int)
    requires s.ord.ByTotal? && Structure(s, nodes, nodeMap) && 0 <= index < |nodes|
    requires nodes' == nodes[index := nodes[index].(isOpened := false, isClosed := true)]
    requires multiset(items') == multiset(items) - multiset{index}
    requires AllSettled(s, nodes, nodeMap, items, INDEX_NONE)
    ensures AllSettled(s, nodes', nodeMap, items', index)
    ensures DestinationOpen(s, nodes, nodeMap, items) && nodes[index].position != s.ord.destination ==>
      DestinationOpen(s, nodes', nodeMap, items')
  {
    assert Grows(nodes, nodeMap, nodes', nodeMap) by {
      forall i | 0 <= i < |nodes| ensures GrowsAt(nodes, nodes', i) { }
    }
    forall i | 0 <= i < |nodes'| && i != index ensures Settled(s, nodes', nodeMap, items', i) {
      if Reached(nodes', i) && i !in items' && TransitOk(s, nodes'[i].position) {
        assert i !in multiset(items');
        assert i !in items;
        assert Settled(s, nodes, nodeMap, items, i);
        ExpandedGrows(s, nodes, nodeMap, nodes', nodeMap, i);
      }
    }
    var d := s.ord.destination;
    if DestinationOpen(s, nodes, nodeMap, items) && nodes[index].position != d && d in nodeMap && Reached(nodes', nodeMap[d]) {
      IndexedKey(s.grid, nodes, nodeMap, d);
      assert nodeMap[d] != index;
      assert nodeMap[d] in multiset(items);
      assert nodeMap[d] in multiset(items');
    }
  }

  /** Once the node except is settled as well, every node is. */
  lemma SettleLast(s: Search, nodes: seq<SearchNode>, nodeMap: map<Coord, int>, items: seq<int>, except: int)
    requires s.ord.ByTotal? && AllSettled(s, nodes, nodeMap, items, except)
    requires 0 <= except < |nodes| && Settled(s, nodes, nodeMap, items, except)
    ensures AllSettled(s, nodes, nodeMap, items, INDEX_NONE)
  {
  }

  /** One pass of the A* loop that does not find the destination keeps every
      node settled and the destination open: the popped node is closed, then
      expanded when its colour lets it be left (a node that may not be left is
      settled by definition). */
  lemma PassKeepsSettled(s: Search, nodes: seq<SearchNode>, nodeMap: map<Coord, int>, items: seq<int>,
                         index: int, poppedItems: seq<int>, r: PoolState, pathColor: ElementMask.Mask)
    requires s.grid.Valid() && s.ord.ByTotal? && s.transit == Within(pathColor, false)
    requires SearchInv(s, nodes, nodeMap, items) && 0 <= index < |nodes| && index in items
    requires AllSettled(s, nodes, nodeMap, items, INDEX_NONE) && DestinationOpen(s, nodes, nodeMap, items)
    requires multiset(poppedItems) == multiset(items) - multiset{index}
    requires nodes[index].position != s.ord.destination
    requires var n := nodes[index];
      var popped := PoolState(nodes[index := n.(isOpened := false, isClosed := true)], nodeMap, poppedItems);
      r == if ElementMask.Allows(pathColor, n.tileData.topType) then VisitNeighbors(s, popped, index, s.grid.neighbors(n.position)) else popped
    ensures AllSettled(s, r.nodes, r.nodeMap, r.items, INDEX_NONE) && DestinationOpen(s, r.nodes, r.nodeMap, r.items)
  {
    var n := nodes[index];
    var popped := PoolState(nodes[index := n.(isOpened := false, isClosed := true)], nodeMap, poppedItems);
    PopKeepsInv(s, nodes, nodeMap, items, index, poppedItems);
    PopKeepsSettled(s, nodes, nodeMap, items, popped.nodes, poppedItems, index);
    IndexedAt(s.grid, nodes, nodeMap, index);
    if ElementMask.Allows(pathColor, n.tileData.topType) {
      var ns := s.grid.neighbors(n.position);
      VisitNeighborsSettles(s, popped, index, ns);
      ExpandFinish(s, popped.nodes, popped.nodeMap, popped.items, r.nodes, r.nodeMap, r.items, index);
    } else {
      assert !TransitOk(s, popped.nodes[index].position);
      SettleLast(s, popped.nodes, popped.nodeMap, popped.items, index);
    }
  }

  /** A valid back path minus its last step is a valid back path, and the
      totals along it stay below INT_MAX. */
  lemma BackPathTail(s: Search, destination: Coord, back: seq<Coord>)
    requires |back| > 0 && ValidBackPath(s, back) && TotalsBelowMax(s.grid, s.origin, destination, back)
    ensures ValidBackPath(s, back[1..]) && TotalsBelowMax(s.grid, s.origin, destination, back[1..])
    ensures From(s.origin, back, 0) == Target(s.origin, back[1..])
  {
    var rest := back[1..];
    forall k | 0 <= k < |rest| ensures StepOk(s, From(s.origin, rest, k), rest[k]) {
      assert From(s.origin, rest, k) == From(s.origin, back, k + 1);
      assert StepOk(s, From(s.origin, back, k + 1), back[k + 1]);
    }
    forall k | 0 <= k < |rest|
      ensures BackCost(s.grid, s.origin, rest[k..]) + s.grid.distance(rest[k], destination) < INT_MAX
    {
      assert rest[k..] == back[k + 1..];
    }
  }

  /** With every node settled and nothing open, following an allowed path from
      the origin whose totals stay below INT_MAX meets reached nodes all the way,
      each at no more than the path's cost so far. */
  lemma {:induction false} ReachedAlong(s: Search, nodes: seq<SearchNode>, nodeMap: map<Coord, int>, back: seq<Coord>)
    requires s.ord.ByTotal? && Structure(s, nodes, nodeMap) && AllSettled(s, nodes, nodeMap, [], INDEX_NONE)
    requires ValidBackPath(s, back) && TotalsBelowMax(s.grid, s.origin, s.ord.destination, back)
    ensures var t := Target(s.origin, back);
      t in nodeMap && Reached(nodes, nodeMap[t]) && nodes[nodeMap[t]].cost <= BackCost(s.grid, s.origin, back)
    decreases |back|
  {
    if back == [] {
      IndexedAt(s.grid, nodes, nodeMap, 0);
    } else {
      var rest := back[1..];
      BackPathTail(s, s.ord.destination, back);
      ReachedAlong(s, nodes, nodeMap, rest);
      var y := Target(s.origin, rest);
      var u := nodeMap[y];
      var x := back[0];
      IndexedKey(s.grid, nodes, nodeMap, y);
      assert StepOk(s, From(s.origin, back, 0), x);
      assert Settled(s, nodes, nodeMap, [], u);
      assert AllowedDone(s, nodes, nodeMap, u, x);
      assert back[0..] == back;
      assert BackCost(s.grid, s.origin, back) == s.grid.cost(y, x) + BackCost(s.grid, s.origin, rest);
    }
  }

  /** The exhaustion argument: with every node settled, nothing open and the
      destination kept open once reached, no allowed path with totals below
      INT_MAX leads to the destination. */
  lemma ExhaustedNoPath(s: Search, nodes: seq<SearchNode>, nodeMap: map<Coord, int>)
    requires s.ord.ByTotal? && Structure(s, nodes, nodeMap)
    requires AllSettled(s, nodes, nodeMap, [], INDEX_NONE) && DestinationOpen(s, nodes, nodeMap, [])
    ensures NoPathWithin(s, s.ord.destination)
  {
    forall back | ValidBackPath(s, back) && TotalsBelowMax(s.grid, s.origin, s.ord.destination, back)
      ensures Target(s.origin, back) != s.ord.destination
    {
      ReachedAlong(s, nodes, nodeMap, back);
    }
  }
}
