/** The steps both engines take on their pool and open list: pop the cheapest
    open node and close it, and look up (or create) a neighbour's node. Each is
    stated against the search invariant of SearchSpec. */
module SearchSteps {
  import opened Grid
  import opened Pathfinding
  import opened SearchSpec

  /** PopIndex followed by setting the popped node's closed flag: the popped
      node is a cheapest open node, it is reached, and the invariant and the
      potential are kept while the list shrinks by one. */
  method PopAndClose(pool: NodePool, list: OpenList, ghost s: Search) returns (index: int)
    requires list.nodePool == pool && pool.grid == s.grid
    requires SearchInv(s, pool.nodes, pool.nodeMap, list.items) && |list.items| > 0
    modifies pool, list
    ensures index in old(list.items) && Reached(pool.nodes, index)
    ensures forall j :: j in old(list.items) ==> old(pool.nodes[j].cost) >= old(pool.nodes[index].cost)
    ensures multiset(list.items) == multiset(old(list.items)) - multiset{index}
    ensures |list.items| == |old(list.items)| - 1
    ensures pool.nodes == old(pool.nodes)[index := old(pool.nodes[index]).(isOpened := false, isClosed := true)]
    ensures pool.nodeMap == old(pool.nodeMap)
    ensures SearchInv(s, pool.nodes, pool.nodeMap, list.items)
    ensures Grows(old(pool.nodes), old(pool.nodeMap), pool.nodes, pool.nodeMap)
    ensures Potential(s, pool.nodes, pool.nodeMap) == old(Potential(s, pool.nodes, pool.nodeMap))
  {
    ghost var nodes0, items0 := pool.nodes, list.items;
    index := list.PopIndex();
    pool.nodes := pool.nodes[index := pool.nodes[index].(isClosed := true)];
    PopKeepsInv(s, nodes0, pool.nodeMap, items0, index, list.items);
    assert pool.nodes == nodes0[index := nodes0[index].(isOpened := false, isClosed := true)];
    forall j | j in items0 ensures nodes0[j].cost >= nodes0[index].cost {
      assert !Sorts(nodes0, j, index);
    }
  }

  /** FindOrAdd on a search's pool: an in-bounds position gets its node, new
      nodes arrive unreached, and the invariant and the potential are kept. */
  method FindNode(pool: NodePool, list: OpenList, position: Coord, ghost s: Search) returns (index: int)
    requires list.nodePool == pool && pool.grid == s.grid
    requires SearchInv(s, pool.nodes, pool.nodeMap, list.items) && position in s.grid.tiles
    modifies pool
    ensures SearchInv(s, pool.nodes, pool.nodeMap, list.items)
    ensures 0 <= index < |pool.nodes| && pool.nodes[index].position == position
    ensures (pool.nodes, pool.nodeMap) == WithNode(s.grid, old(pool.nodes), old(pool.nodeMap), position)
    ensures position in pool.nodeMap && index == pool.nodeMap[position]
    ensures old(pool.nodes) <= pool.nodes
    ensures Grows(old(pool.nodes), old(pool.nodeMap), pool.nodes, pool.nodeMap)
    ensures Potential(s, pool.nodes, pool.nodeMap) == old(Potential(s, pool.nodes, pool.nodeMap))
  {
    if position !in pool.nodeMap {
      AddKeepsInv(s, pool.nodes, pool.nodeMap, list.items, position);
    }
    index := pool.FindOrAdd(position);
  }
}
