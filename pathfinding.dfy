/** The search infrastructure shared by both engines: the search node record,
    the node pool (node array plus position index), the node sorter, the open
    list and the neighbour block tests. */
module Pathfinding {
  import opened Grid

  /** INDEX_NONE: "no index". */
  const INDEX_NONE: int := -1
  /** INT_MAX of a 32-bit int: the "not reached yet" cost. */
  const INT_MAX: int := 0x7FFF_FFFF

  /** The tile data of a node that the pool has not filled in yet. */
  const NoTile: TileData := TileData(OtherElement(0), 0, false)

  /** One search node. tileData is the grid's data for position, read once when
      the pool adds the node. */
  datatype SearchNode = SearchNode(
    position: Coord,
    parentPos: Coord,
    searchNodeIndex: int,
    parentIndex: int,
    cost: int,
    totalCost: int,
    isOpened: bool,
    isClosed: bool,
    tileData: TileData)

  /** The defaults every node starts with: not reached, not linked, in no list. */
  predicate Unreached(n: SearchNode)
  {
    n.cost == INT_MAX && n.totalCost == INT_MAX && n.parentIndex == INDEX_NONE &&
    !n.isOpened && !n.isClosed
  }

  /** SearchNode(InPosition). The source leaves parentPos and tileData unset;
      here they are (0, 0) and NoTile. */
  function NewNode(position: Coord): (n: SearchNode)
    ensures Unreached(n) && n.position == position && n.searchNodeIndex == INDEX_NONE
  {
    SearchNode(position, Coord(0, 0), INDEX_NONE, INDEX_NONE, INT_MAX, INT_MAX, false, false, NoTile)
  }

  /** Position p of the index names the node at p. */
  ghost predicate MapsTo(nodes: seq<SearchNode>, nodeMap: map<Coord, int>, p: Coord)
    requires p in nodeMap
  {
    0 <= nodeMap[p] < |nodes| && nodes[nodeMap[p]].position == p
  }

  /** Node i is indexed under its position, knows its own index and carries the
      grid's data for its position. */
  ghost predicate SlotOk(g: HexGrid, nodes: seq<SearchNode>, nodeMap: map<Coord, int>, i: int)
    requires 0 <= i < |nodes|
  {
    nodes[i].position in nodeMap && nodeMap[nodes[i].position] == i &&
    nodes[i].searchNodeIndex == i && nodes[i].tileData == g.tileData(nodes[i].position)
  }

  /** The node array and the position index agree: NodeMap[p] == i exactly when
      node i sits at p, every node knows its own index, and every node carries
      the grid's data for its position. */
  ghost predicate Indexed(g: HexGrid, nodes: seq<SearchNode>, nodeMap: map<Coord, int>)
  {
    (forall p {:trigger MapsTo(nodes, nodeMap, p)} :: p in nodeMap ==> MapsTo(nodes, nodeMap, p)) &&
    (forall i {:trigger SlotOk(g, nodes, nodeMap, i)} :: 0 <= i < |nodes| ==> SlotOk(g, nodes, nodeMap, i))
  }

  /** At most one node per position. */
  lemma IndexedPositionsDistinct(g: HexGrid, nodes: seq<SearchNode>, nodeMap: map<Coord, int>, i: int, j: int)
    requires Indexed(g, nodes, nodeMap)
    requires 0 <= i < |nodes| && 0 <= j < |nodes| && nodes[i].position == nodes[j].position
    ensures i == j
  {
    assert SlotOk(g, nodes, nodeMap, i) && SlotOk(g, nodes, nodeMap, j);
  }

  /** What Indexed gives about one node. */
  lemma IndexedAt(g: HexGrid, nodes: seq<SearchNode>, nodeMap: map<Coord, int>, i: int)
    requires Indexed(g, nodes, nodeMap) && 0 <= i < |nodes|
    ensures nodes[i].position in nodeMap && nodeMap[nodes[i].position] == i
    ensures nodes[i].searchNodeIndex == i && nodes[i].tileData == g.tileData(nodes[i].position)
  {
    assert SlotOk(g, nodes, nodeMap, i);
  }

  /** What Indexed gives about one position. */
  lemma IndexedKey(g: HexGrid, nodes: seq<SearchNode>, nodeMap: map<Coord, int>, p: Coord)
    requires Indexed(g, nodes, nodeMap) && p in nodeMap
    ensures 0 <= nodeMap[p] < |nodes| && nodes[nodeMap[p]].position == p
  {
    assert MapsTo(nodes, nodeMap, p);
  }

  /** Appending a node for a new position, indexed under its own slot, keeps
      the pool indexed. */
  lemma IndexedAppend(g: HexGrid, nodes: seq<SearchNode>, nodeMap: map<Coord, int>, n: SearchNode)
    requires Indexed(g, nodes, nodeMap) && n.position !in nodeMap
    requires n.searchNodeIndex == |nodes| && n.tileData == g.tileData(n.position)
    ensures Indexed(g, nodes + [n], nodeMap[n.position := |nodes|])
  {
    var nodes', nodeMap' := nodes + [n], nodeMap[n.position := |nodes|];
    forall p | p in nodeMap' ensures MapsTo(nodes', nodeMap', p) {
      if p != n.position {
        IndexedKey(g, nodes, nodeMap, p);
      }
    }
    forall i | 0 <= i < |nodes'| ensures SlotOk(g, nodes', nodeMap', i) {
      if i < |nodes| {
        IndexedAt(g, nodes, nodeMap, i);
      }
    }
  }

  /** Rewriting a node without moving it, renumbering it or changing its tile
      data keeps the pool indexed. */
  lemma IndexedUpdate(g: HexGrid, nodes: seq<SearchNode>, nodeMap: map<Coord, int>, j: int, n: SearchNode)
    requires Indexed(g, nodes, nodeMap) && 0 <= j < |nodes|
    requires n.position == nodes[j].position && n.searchNodeIndex == nodes[j].searchNodeIndex
    requires n.tileData == nodes[j].tileData
    ensures Indexed(g, nodes[j := n], nodeMap)
  {
    var nodes' := nodes[j := n];
    forall p | p in nodeMap ensures MapsTo(nodes', nodeMap, p) {
      IndexedKey(g, nodes, nodeMap, p);
    }
    forall i | 0 <= i < |nodes'| ensures SlotOk(g, nodes', nodeMap, i) {
      IndexedAt(g, nodes, nodeMap, i);
    }
  }

  /** NodePool: the node array and the map from position to index. */
  class NodePool {
    const grid: HexGrid
    var nodes: seq<SearchNode>
    var nodeMap: map<Coord, int>

    ghost predicate Valid()
      reads this
    {
      Indexed(grid, nodes, nodeMap)
    }

    /** A pool bound to a grid (construction followed by setting HexGrid). */
    constructor (grid: HexGrid)
      ensures this.grid == grid && nodes == [] && nodeMap == map[] && Valid()
    {
      this.grid := grid;
      nodes := [];
      nodeMap := map[];
    }

    /** Appends a node for position, records it in the index, and gives it its
        own index and the grid's tile data. The source does not check that the
        position is new; if it is not, the index is redirected and the old node
        is orphaned, which is why Valid() is only kept for a new position. */
    method Add(position: Coord) returns (index: int)
      modifies this
      ensures index == old(|nodes|)
      ensures nodes == old(nodes) + [NewNode(position).(searchNodeIndex := index, tileData := grid.tileData(position))]
      ensures nodeMap == old(nodeMap)[position := index]
      ensures old(Valid()) && position !in old(nodeMap) ==> Valid()
    {
      index := |nodes|;
      nodes := nodes + [NewNode(position)];
      nodeMap := nodeMap[position := index];
      nodes := nodes[index := nodes[index].(searchNodeIndex := index, tileData := grid.tileData(position))];
      if old(Valid()) && position !in old(nodeMap) {
        assert nodes == old(nodes) + [nodes[index]];
        IndexedAppend(grid, old(nodes), old(nodeMap), nodes[index]);
      }
    }

    /** Returns the index of the node at position, adding one if there is none. */
    method FindOrAdd(position: Coord) returns (index: int)
      requires Valid()
      modifies this
      ensures Valid()
      ensures 0 <= index < |nodes| && nodes[index].position == position
      ensures position in old(nodeMap) ==>
        index == old(nodeMap[position]) && nodes == old(nodes) && nodeMap == old(nodeMap)
      ensures position !in old(nodeMap) ==>
        index == old(|nodes|) &&
        nodes == old(nodes) + [NewNode(position).(searchNodeIndex := index, tileData := grid.tileData(position))] &&
        nodeMap == old(nodeMap)[position := index]
    {
      if position in nodeMap {
        index := nodeMap[position];
        IndexedKey(grid, nodes, nodeMap, position);
      } else {
        index := Add(position);
      }
    }

    /** Empties the node array and the index. */
    method Reset()
      modifies this
      ensures nodes == [] && nodeMap == map[] && Valid()
    {
      nodes := [];
      nodeMap := map[];
    }
  }

  /** NodeSorter: lhs goes before rhs when its cost, read live from the pool, is
      smaller. The total cost is not consulted. */
  predicate Sorts(nodes: seq<SearchNode>, lhs: int, rhs: int)
    requires 0 <= lhs < |nodes| && 0 <= rhs < |nodes|
  {
    nodes[lhs].cost < nodes[rhs].cost
  }

  /** The sorter is a strict weak order, as a heap needs. */
  lemma SortsIsStrictWeakOrder(nodes: seq<SearchNode>, a: int, b: int, c: int)
    requires 0 <= a < |nodes| && 0 <= b < |nodes| && 0 <= c < |nodes|
    ensures !Sorts(nodes, a, a)
    ensures Sorts(nodes, a, b) && Sorts(nodes, b, c) ==> Sorts(nodes, a, c)
    ensures !Sorts(nodes, a, b) && !Sorts(nodes, b, a) && !Sorts(nodes, b, c) && !Sorts(nodes, c, b) ==>
      !Sorts(nodes, a, c) && !Sorts(nodes, c, a)
  {
  }

  /** Every index in items is a node of the pool. */
  predicate InPool(nodes: seq<SearchNode>, items: seq<int>)
  {
    forall k :: 0 <= k < |items| ==> 0 <= items[k] < |nodes|
  }

  /** Node at position k of items is minimal under the sorter. */
  predicate IsMinimal(nodes: seq<SearchNode>, items: seq<int>, k: int)
    requires InPool(nodes, items)
  {
    0 <= k < |items| && forall j :: 0 <= j < |items| ==> !Sorts(nodes, items[j], items[k])
  }

  /** A non-empty open list has a minimal element. */
  lemma {:induction false} MinimalExists(nodes: seq<SearchNode>, items: seq<int>)
    requires InPool(nodes, items) && |items| > 0
    ensures exists k :: IsMinimal(nodes, items, k)
  {
    if |items| == 1 {
      assert IsMinimal(nodes, items, 0);
    } else {
      var rest := items[..|items| - 1];
      MinimalExists(nodes, rest);
      var k :| IsMinimal(nodes, rest, k);
      var last := |items| - 1;
      if nodes[items[last]].cost < nodes[rest[k]].cost {
        assert IsMinimal(nodes, items, last);
      } else {
        assert IsMinimal(nodes, items, k);
      }
    }
  }

  /** The open-flag invariant: the list holds pool indices, each at most once,
      and a node is flagged open exactly when its index is in the list. */
  ghost predicate OpenConsistent(nodes: seq<SearchNode>, items: seq<int>)
  {
    InPool(nodes, items) &&
    (forall i {:trigger OpenFlagOk(nodes, items, i)} :: 0 <= i < |nodes| ==> OpenFlagOk(nodes, items, i))
  }

  /** Node i is in the list at most once, and flagged open exactly when it is in it. */
  ghost predicate OpenFlagOk(nodes: seq<SearchNode>, items: seq<int>, i: int)
    requires 0 <= i < |nodes|
  {
    multiset(items)[i] <= 1 && (nodes[i].isOpened <==> i in items)
  }

  /** OpenList: a heap of pool indices ordered by NodeSorter. The heap layout is
      not modelled, only which indices it holds. */
  class OpenList {
    const nodePool: NodePool
    var items: seq<int>

    constructor (pool: NodePool)
      ensures nodePool == pool && items == []
    {
      nodePool := pool;
      items := [];
    }

    /** Empties the list. */
    method Reset()
      modifies this
      ensures items == []
    {
      items := [];
    }

    /** Inserts the node's own index and flags the node open. */
    method Push(index: int)
      requires 0 <= index < |nodePool.nodes|
      modifies this, nodePool
      ensures items == old(items) + [old(nodePool.nodes[index].searchNodeIndex)]
      ensures nodePool.nodes == old(nodePool.nodes)[index := old(nodePool.nodes[index]).(isOpened := true)]
      ensures nodePool.nodeMap == old(nodePool.nodeMap)
    {
      items := items + [nodePool.nodes[index].searchNodeIndex];
      nodePool.nodes := nodePool.nodes[index := nodePool.nodes[index].(isOpened := true)];
    }

    /** Removes an index that no other index in the list sorts before, and
        clears that node's open flag. */
    method PopIndex() returns (index: int)
      requires |items| > 0 && InPool(nodePool.nodes, items)
      modifies this, nodePool
      ensures 0 <= index < |nodePool.nodes| && index in old(items)
      ensures forall j :: j in old(items) ==> !Sorts(old(nodePool.nodes), j, index)
      ensures multiset(items) == multiset(old(items)) - multiset{index}
      ensures |items| == |old(items)| - 1
      ensures nodePool.nodes == old(nodePool.nodes)[index := old(nodePool.nodes[index]).(isOpened := false)]
      ensures nodePool.nodeMap == old(nodePool.nodeMap)
    {
      MinimalExists(nodePool.nodes, items);
      var k :| IsMinimal(nodePool.nodes, items, k);
      index := items[k];
      assert items == items[..k] + [index] + items[k + 1..];
      items := items[..k] + items[k + 1..];
      nodePool.nodes := nodePool.nodes[index := nodePool.nodes[index].(isOpened := false)];
    }
  }

  /** Pushing a node that is not open keeps the open-flag invariant. */
  lemma PushKeepsOpenConsistent(nodes: seq<SearchNode>, items: seq<int>, index: int)
    requires OpenConsistent(nodes, items) && 0 <= index < |nodes| && !nodes[index].isOpened
    ensures OpenConsistent(nodes[index := nodes[index].(isOpened := true)], items + [index])
  {
    var nodes', items' := nodes[index := nodes[index].(isOpened := true)], items + [index];
    assert multiset(items') == multiset(items) + multiset{index};
    forall i | 0 <= i < |nodes'|
      ensures OpenFlagOk(nodes', items', i)
    {
      assert OpenFlagOk(nodes, items, i);
      assert i in items' <==> i in multiset(items');
      assert i in items <==> i in multiset(items);
    }
  }

  /** Popping keeps the open-flag invariant. */
  lemma PopKeepsOpenConsistent(nodes: seq<SearchNode>, items: seq<int>, index: int, items': seq<int>)
    requires OpenConsistent(nodes, items) && index in items
    requires multiset(items') == multiset(items) - multiset{index}
    ensures OpenConsistent(nodes[index := nodes[index].(isOpened := false)], items')
  {
    var nodes' := nodes[index := nodes[index].(isOpened := false)];
    forall k | 0 <= k < |items'| ensures 0 <= items'[k] < |nodes'| {
      assert items'[k] in multiset(items');
      assert items'[k] in multiset(items);
      assert items'[k] in items;
    }
    forall i | 0 <= i < |nodes'|
      ensures OpenFlagOk(nodes', items', i)
    {
      assert OpenFlagOk(nodes, items, i);
      assert i in items' <==> i in multiset(items');
      assert i in items <==> i in multiset(items);
    }
  }

  /** Rewriting a node without touching its open flag keeps the open-flag invariant. */
  lemma OpenConsistentUpdate(nodes: seq<SearchNode>, items: seq<int>, j: int, n: SearchNode)
    requires OpenConsistent(nodes, items) && 0 <= j < |nodes| && n.isOpened == nodes[j].isOpened
    ensures OpenConsistent(nodes[j := n], items)
  {
    var nodes' := nodes[j := n];
    forall i | 0 <= i < |nodes'| ensures OpenFlagOk(nodes', items, i) {
      assert OpenFlagOk(nodes, items, i);
    }
  }

  /** Appending a node that is not open keeps the open-flag invariant. */
  lemma OpenConsistentAppend(nodes: seq<SearchNode>, items: seq<int>, n: SearchNode)
    requires OpenConsistent(nodes, items) && !n.isOpened
    ensures OpenConsistent(nodes + [n], items)
  {
    var nodes' := nodes + [n];
    forall i | 0 <= i < |nodes'| ensures OpenFlagOk(nodes', items, i) {
      if i < |nodes| {
        assert OpenFlagOk(nodes, items, i);
      } else {
        assert i !in items;
        assert i !in multiset(items);
      }
    }
  }

  /** The neighbour block tests a search can be given. */
  datatype BlockTest = TestNone | TestBlock | TestHeight

  /** Test_None: every neighbour may be entered. */
  function Test_None(parentNode: SearchNode, neighborNode: SearchNode, g: HexGrid): bool
  {
    true
  }

  /** Test_Block: a neighbour may be entered unless its tile is blocked. */
  function Test_Block(parentNode: SearchNode, neighborNode: SearchNode, g: HexGrid): bool
  {
    neighborNode.tileData.blocked == false
  }

  /** Test_Height: Test_Block, and the height rule lets the parent step onto it. */
  function Test_Height(parentNode: SearchNode, neighborNode: SearchNode, g: HexGrid): bool
  {
    neighborNode.tileData.blocked == false && g.isPassable(parentNode.position, neighborNode.position)
  }

  /** Calls the block test a search was given. */
  function RunTest(test: BlockTest, parentNode: SearchNode, neighborNode: SearchNode, g: HexGrid): bool
  {
    match test
    case TestNone => Test_None(parentNode, neighborNode, g)
    case TestBlock => Test_Block(parentNode, neighborNode, g)
    case TestHeight => Test_Height(parentNode, neighborNode, g)
  }

  /** The tests form a chain: Height implies Block implies None. */
  lemma TestsStrengthen(parentNode: SearchNode, neighborNode: SearchNode, g: HexGrid)
    ensures RunTest(TestHeight, parentNode, neighborNode, g) ==> RunTest(TestBlock, parentNode, neighborNode, g)
    ensures RunTest(TestBlock, parentNode, neighborNode, g) ==> RunTest(TestNone, parentNode, neighborNode, g)
  {
  }
}
