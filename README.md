# Akasha pathfinding, modelled in Dafny

This project models the pathfinding module of the Akasha game. The module has three parts:

- **Shared search infrastructure.** The `SearchNode` record and the `NodePool`, which is a node array plus a position-to-index map. The `OpenList`, a heap of pool indices ordered by `NodeSorter`. The neighbour block tests `Test_None`, `Test_Block` and `Test_Height`. The `ElementMask` colour bits.
- **The A\* engine (`UAStar`).** It searches from a start tile to a destination. It relaxes neighbours by total cost, which is the cost so far plus the grid's distance estimate. On success it hands out the path by walking parent indices back from the destination.
- **The movement-range engine (`UMovementRange`).** It runs a flood fill bounded by a cost budget. A stopping tile must match a destination colour mask and a tile crossed below the budget must match a path colour mask. A filter then runs a fresh nested search from every tile the fill produced. It drops each tile from which no tile of a stoppable colour can be reached with the budget that is left.

## How the model is organised

| module | file | role |
|---|---|---|
| `Grid` | `grid.dfy` | Coordinates, element types and tile data. The hex grid is a value of function-valued fields: neighbours, step cost, distance, height rule, tile data and element test. |
| `ElementMask` | `element_mask.dfy` | The colour bits, `MapColor`, and the crossing mask both engines build. |
| `Pathfinding` | `pathfinding.dfy` | `SearchNode`, the `NodePool` and `OpenList` classes, the sorter and the block tests. |
| `SearchSpec` | `search_spec.dfy` | What every search keeps true of its pool and open list, what that gives a caller, and the relaxation rule as functions on values. |
| `AstarSpec` | `astar_spec.dfy` | Why an A\* search that empties its open list has no path to report. |
| `SearchSteps` | `search_steps.dfy` | Two steps shared by both engines: pop-and-close, and find-or-add on a search's pool. |
| `Dijkstra` | `movement_range.dfy` | The `MovementRange` engine: flood fill, nested search and filter. |
| `Astar` | `astar.dfy` | The `AStar` engine. |

The pool and the open list are classes whose methods reassign their `seq` and `map` fields, as the source mutates its arrays in place. Each engine is a class that owns a pool and a list and runs the search loops as `while` loops.

**Search invariant.** Every search is stated against one invariant, `SearchSpec.SearchInv`:

- Node 0 is the origin at cost 0.
- Every other node is either unreached, or linked to a strictly cheaper parent through an allowed step, and its cost covers that parent's cost plus the step.
- The open flags agree with the list, and each index is in the list at most once.

**Soundness.** From the invariant, `SearchSpec.PathBackSound` shows that walking parent indices from any reached node gives a path from the origin under the search's rules. That path costs no more than the node's recorded cost.

**Relaxation rule.** `SearchSpec.RelaxStep` states, as a function on values, what both engines do to a neighbour node: unless the neighbour is the exempt tile, the block test must pass; the node is updated only when its key (cost, or total cost in A\*) strictly drops; it then gets the new cost, total, parent and a cleared closed flag, and joins the open list unless it is already open. `VisitNeighbor` adds the find-or-add before it and `VisitNeighbors` runs it over a neighbour list. Every engine method that changes the pool states its new pool and list through these functions.

**A\* completeness.** `AstarSpec.ExhaustedNoPath` shows that a false answer means no path the rules allow leads to the destination, among paths whose running totals stay below `INT_MAX`.

**Termination.** Every loop is proved to terminate. The measure is the sum of the node keys plus `INT_MAX` for each grid tile that has no node yet, taken together with the open-list length.

**Quirks of the source that the model keeps:**

- The sorter compares `cost`, also in A\*, even though A\* relaxes a neighbour by `totalCost`.
- The A\* path comes out destination first and never lists the start.
- Path reconstruction assigns through a reference to the popped node's slot. So the destination's pool slot ends up holding a copy of the start node.
- The nested search of the movement-range engine exempts the engine's `start` field from the block test, not its own `position` argument.
- `ReachableTileExist` takes a list of tiles that it never reads. The model keeps the parameter unused too.

## Model

| member | source | states |
|---|---|---|
| ElementMask.MasksAreSingleBits | Pathfinding/Pathfinding.h:82-87 | Stone, Water, Vine, Fire and Lightning are single bits, pairwise disjoint, and Any is their union (31). |
| ElementMask.NoneAndAny | Pathfinding/Pathfinding.h:81-87 | None lets no element through; Any lets through exactly the five masked elements. |
| ElementMask.MapColor | Pathfinding/Pathfinding.cpp:92-114 | The colour is None or a single bit inside Any, and it is non-zero exactly for the five masked elements. |
| ElementMask.MapColorInjective | Pathfinding/Pathfinding.cpp:92-114 | Two masked elements share a colour bit if and only if they are the same element. |
| ElementMask.AllowsOwnColor | Pathfinding/Pathfinding.cpp:92-114 | The mask of one masked element lets through that element and no other. |
| ElementMask.TransitColor | Pathfinding/Private/AStar.cpp:34-39 | The crossing mask lets through exactly the walker's element, Stone, and Water when water is allowed. |
| Pathfinding.NewNode | Pathfinding/Pathfinding.h:18-25 | A new node sits at its position with costs INT_MAX, no parent, no own index, and neither open nor closed. |
| Pathfinding.IndexedPositionsDistinct | Pathfinding/Pathfinding.h:30-34 | In an indexed pool no two nodes share a position. |
| Pathfinding.IndexedAppend | Pathfinding/Pathfinding.cpp:23-33 | Appending a node for a new position under its own index, with the grid's tile data, keeps the pool and its map in agreement. |
| Pathfinding.NodePool.constructor | Pathfinding/Pathfinding.cpp:17-21 | A new pool is empty, has an empty map, and is indexed. |
| Pathfinding.NodePool.Add | Pathfinding/Pathfinding.cpp:23-33 | Appends exactly one fresh node and gives it its own index and the grid's tile data. Maps the position to that index. Keeps the pool indexed when the position was new. |
| Pathfinding.NodePool.FindOrAdd | Pathfinding/Pathfinding.cpp:35-39 | A mapped position gives its existing index and leaves pool and map unchanged. An unmapped one behaves as Add. The result names a node at the position, and the pool stays indexed. |
| Pathfinding.NodePool.Reset | Pathfinding/Pathfinding.cpp:41-45 | Leaves the node array and the map empty. |
| Pathfinding.SortsIsStrictWeakOrder | Pathfinding/Pathfinding.cpp:51-54 | The sorter `Sorts` puts one node before another when its cost is strictly lower. That order is irreflexive and transitive, and its incomparability is transitive, as a heap requires. |
| Pathfinding.MinimalExists | Pathfinding/Pathfinding.cpp:68-74 | A non-empty open list holds an index that no other index sorts before. |
| Pathfinding.OpenList.constructor | Pathfinding/Pathfinding.cpp:56-60 | A new list is bound to its pool and holds no index. |
| Pathfinding.OpenList.Reset | Pathfinding/Private/AStar.cpp:132 | Empties the list. |
| Pathfinding.OpenList.Push | Pathfinding/Pathfinding.cpp:62-66 | Adds the node's own index to the list and sets that node's open flag. Nothing else in the pool changes. |
| Pathfinding.OpenList.PopIndex | Pathfinding/Pathfinding.cpp:68-74 | Removes one occurrence of an index that no listed index sorts before by cost, and clears that node's open flag. Nothing else changes. |
| Pathfinding.PushKeepsOpenConsistent | Pathfinding/Pathfinding.cpp:62-66 | Pushing a node that is not open keeps "open flag set exactly when listed, each index at most once". |
| Pathfinding.PopKeepsOpenConsistent | Pathfinding/Pathfinding.cpp:68-74 | Popping a listed index and clearing its flag keeps the same open-flag invariant. |
| Pathfinding.TestsStrengthen | Pathfinding/Pathfinding.cpp:76-90 | Test_Height implies Test_Block, and Test_Block implies Test_None. |
| SearchSpec.StepAllowedAgrees | Pathfinding/Pathfinding.cpp:76-90 | On a pool node carrying the grid's tile data, a block test depends only on the two positions. |
| SearchSpec.StepAllowedOnGrid | Pathfinding/Pathfinding.cpp:76-90 | On the grid's tile data, Test_None lets every step through, Test_Block exactly the steps onto an unblocked tile, and Test_Height exactly those that the height rule also allows. |
| SearchSpec.BackCost | Pathfinding/Private/MovementRange.cpp:134 | A path costs at least one per step, since every step cost is positive. |
| SearchSpec.ExtendBackPath | Pathfinding/Private/MovementRange.cpp:123-136 | One more allowed step from a path's end gives a valid path whose cost grows by that step's cost. |
| SearchSpec.StructureChained | Pathfinding/Private/MovementRange.cpp:123-136 | Under the search invariant every parent index names a strictly cheaper node, so a parent walk ends. |
| SearchSpec.ReachedBelowMax | Pathfinding/Pathfinding.h:21 | A reached node's cost is below INT_MAX, the "not reached" value. |
| SearchSpec.PathBackSound | Pathfinding/Private/AStar.cpp:95-113 | The parent walk from a reached node within the limit is a path from the origin to that node. Every step is a neighbour step that passes the block test (or enters the exempt tile) and leaves an allowed tile. Its cost is at most the node's cost. It never lists the origin, and it is empty exactly for the origin node. |
| SearchSpec.PathBack | Pathfinding/Private/AStar.cpp:56-62 | The parent walk from node i is empty exactly when i has no parent. Otherwise it starts with i's own position. It has at most as many steps as i's cost. |
| SearchSpec.PotentialNonNegative | Pathfinding/Private/AStar.cpp:47 | The termination measure of every search loop never goes below zero. |
| SearchSpec.KickOffEstablishes | Pathfinding/Private/AStar.cpp:128-141 | A pool holding only the origin at cost 0, open and listed, satisfies the search invariant. |
| SearchSpec.AddKeepsInv | Pathfinding/Pathfinding.cpp:35-39 | Adding an unreached node for a new in-bounds tile keeps the invariant and the termination measure, and moves no existing node. |
| SearchSpec.RelaxedNodeOk | Pathfinding/Private/AStar.cpp:95-113 | A relaxed neighbour is neither the origin node nor the current node. Its cost strictly drops, and it is correctly linked to the current node. |
| SearchSpec.LowerCostKeepsOthers | Pathfinding/Private/MovementRange.cpp:133 | Lowering one node's cost keeps every other node's link valid. |
| SearchSpec.RelaxKeepsInv | Pathfinding/Private/MovementRange.cpp:123-137 | A relaxation keeps the invariant, leaves the neighbour reached, lowers the termination measure, and its new cost is positive. |
| SearchSpec.ImproveKeepsInv | Pathfinding/Private/MovementRange.cpp:123-144 | Relaxing a neighbour and pushing it only when it was not open keeps the invariant. It leaves the current node as it was, moves no node, raises no cost, and lowers the termination measure. |
| SearchSpec.PushKeepsInv | Pathfinding/Private/MovementRange.cpp:139-144 | Pushing a reached node that is not open keeps the invariant and the termination measure. |
| SearchSpec.PopKeepsInv | Pathfinding/Private/MovementRange.cpp:68-70 | Popping a listed index and closing its node keeps the invariant and the measure, and the popped node is reached. |
| SearchSteps.PopAndClose | Pathfinding/Private/AStar.cpp:49-51 | The popped node was listed, is reached, and has the least cost in the list. The list loses exactly that index and its node is marked closed and not open. The map, the invariant and the measure are kept. |
| SearchSteps.FindNode | Pathfinding/Private/MovementRange.cpp:109-110 | The result is the neighbour's node. If the position was unmapped, exactly one fresh unreached node with the grid's tile data is appended and mapped; otherwise pool and map are unchanged. The invariant and the measure are kept. |
| Dijkstra.DestinationColor | Pathfinding/Private/MovementRange.cpp:18-30 | The stop mask lets through exactly the walker's element, Stone under lightningSpecial, and Water when water is allowed. |
| Dijkstra.DestinationWithinTransit | Pathfinding/Private/MovementRange.cpp:18-30 | Every colour a walker may stop on, it may also cross. |
| Dijkstra.RelaxNeighbors | Pathfinding/Private/MovementRange.cpp:102-145 | The new pool and list are exactly those of the relaxation rule applied to every neighbour of the current node, in the grid's order. The invariant is kept, and either the termination measure drops or it and the open list are unchanged. |
| Dijkstra.RelaxNeighbor | Pathfinding/Private/MovementRange.cpp:109-144 | The new pool and list are exactly find-or-add of the neighbour followed by the relaxation rule: start-exempt block test, update only when the cost strictly drops. It keeps the invariant and the current node, and never raises the measure. |
| Dijkstra.Improve | Pathfinding/Private/MovementRange.cpp:132-144 | The neighbour gets the new cost, the current node as parent and position, a cleared closed flag, and the open flag. It is appended to the list exactly when it was not open. No other node changes. The invariant holds and the measure drops. |
| Dijkstra.StoreReached | Pathfinding/Private/MovementRange.cpp:82-100 | A popped node within the budget whose colour passes the stop or cross test has a valid path from the origin within the budget. Its tile is recorded in the pool. |
| Dijkstra.ReachedColorWitness | Pathfinding/Private/MovementRange.cpp:177-180 | A reached node within the limit whose colour is in the mask shows a tile of that colour reachable within the limit. |
| Dijkstra.SubsequenceRemove | Pathfinding/Private/MovementRange.cpp:46-47 | Removing an element from a subsequence at index i leaves a subsequence of the same list in the same order. |
| Dijkstra.SurvivalWitness | Pathfinding/Private/MovementRange.cpp:44 | Suppose a tile is reached within the budget and the nested search from it, with the remaining budget, reaches a stoppable colour. Then that tile survives the filter. |
| Dijkstra.MovementRange.constructor | Pathfinding/Private/MovementRange.cpp:7-11 | The engine is bound to the grid and owns an empty pool and an empty list of its own. |
| Dijkstra.MovementRange.VisitNext | Pathfinding/Private/MovementRange.cpp:66-145 | One pass of the flood fill pops a cheapest open node. It stops exactly when that node is over budget. The node is appended to the output exactly when it is within budget and is the origin, or sits at the budget's edge with a stop colour, or below it with a cross colour. Only then are its neighbours relaxed, and the new pool and list are given exactly. The invariant is kept. |
| Dijkstra.MovementRange.SettlePopped | Pathfinding/Private/MovementRange.cpp:72-145 | For a popped node: stops exactly when it is over budget; otherwise stores it and relaxes its neighbours exactly when its colour passes, with the new output, pool and list given exactly. |
| Dijkstra.MovementRange.GetTilesInRange | Pathfinding/Private/MovementRange.cpp:52-147 | Every output tile has a path from the origin within the budget that leaves the origin or tiles of the cross colour only. The tile itself, unless it is the origin, has a colour fit to stop on at the budget's edge or to cross below it. Every output tile is recorded in the pool. The output is non-empty exactly when the budget is not negative, and it starts with the origin. Each pass of the loop is VisitNext. |
| Dijkstra.MovementRange.ReachableTileExist | Pathfinding/Private/MovementRange.cpp:149-231 | Touches no engine state. True means a tile of the wanted colour is reachable within the budget under the nested rules. A negative budget gives false. A start tile of the wanted colour with a non-negative budget gives true. |
| Dijkstra.MovementRange.NestedFill | Pathfinding/Private/MovementRange.cpp:164-230 | The nested search loop from a pool holding just the start: true means a tile of the wanted colour is reachable within the budget; a negative budget gives false; a start tile of the wanted colour with a non-negative budget gives true. |
| Dijkstra.MovementRange.NestedPass | Pathfinding/Private/MovementRange.cpp:166-227 | One pass of the nested search pops a cheapest open node. It stops exactly when that node is over budget or of a wanted colour, and answers true exactly in the second case, with a reachable witness. Otherwise the node's neighbours are relaxed, the new pool and list are given exactly, and the measure drops. |
| Dijkstra.MovementRange.NestedSettle | Pathfinding/Private/MovementRange.cpp:170-227 | For a popped node: stops exactly when it is over budget or of a wanted colour, true exactly in the second case; otherwise the new pool and list are its neighbours relaxed, exactly. |
| Dijkstra.MovementRange.TestSurvivor | Pathfinding/Private/MovementRange.cpp:42-44 | The nested test of one recorded flood-fill tile, with the budget its cost leaves. True shows the tile survives. False means the tile's own colour may not be stopped on. The pool is left unchanged. |
| Dijkstra.MovementRange.KeepSurvivors | Pathfinding/Private/MovementRange.cpp:40-49 | The kept tiles are the raw tiles in their order, every kept tile survives the nested test, and every raw tile whose own colour may be stopped on is kept. The pool is left unchanged. |
| Dijkstra.MovementRange.GetMovementRange | Pathfinding/Private/MovementRange.cpp:13-50 | Records start, then builds both masks. Every flood-fill tile is reachable within the budget, the fill starts with the origin, and it is empty exactly when the budget is negative. With allowAnyDestination the result is the fill under the Any stop mask. Otherwise it is a subsequence of the fill, in order, whose tiles all survive the nested test, and which keeps every fill tile whose own colour may be stopped on. |
| Astar.ExpandNeighbors | Pathfinding/Private/AStar.cpp:74-121 | The new pool and list are exactly those of the relaxation rule by total cost applied to every neighbour of the current node, in the grid's order. The invariant is kept, and either the termination measure drops or it and the open list are unchanged. |
| Astar.ExpandNeighbor | Pathfinding/Private/AStar.cpp:81-120 | The new pool and list are exactly find-or-add of the neighbour followed by the relaxation rule: start-exempt block test, update only when the total cost strictly drops. It keeps the invariant and the current node. |
| Astar.ImproveTotal | Pathfinding/Private/AStar.cpp:106-120 | The neighbour gets the new cost and total cost, the current node as parent and position, a cleared closed flag, and the open flag. It is appended to the list exactly when it was not open. No other node changes. The invariant holds and the measure drops. |
| Astar.FoundPathSound | Pathfinding/Private/AStar.cpp:56-65 | The parent walk from the popped destination node leads from start to the destination and never lists start. It costs less than INT_MAX and is empty exactly when start is the destination. |
| Astar.AStar.constructor | Pathfinding/Private/AStar.cpp:7-11 | The engine is bound to the grid and owns an empty pool and an empty list of its own. |
| Astar.AStar.SearchKickOff | Pathfinding/Private/AStar.cpp:128-141 | Pool, list and path are emptied. The pool then holds just the start node at cost and total cost 0, open, mapped to 0, and the list is exactly [0]. |
| Astar.AStar.Reconstruct | Pathfinding/Private/AStar.cpp:56-62 | The path is the parent walk from the destination node, destination first and start left out. The destination's slot ends up holding a copy of the start node, and nothing else changes. |
| Astar.AStar.VisitNext | Pathfinding/Private/AStar.cpp:47-121 | One pass of the A\* loop pops a cheapest open node. It answers exactly when that node is the destination, with the sound path, even when the node's colour is outside the mask. Otherwise the node is closed, its neighbours are relaxed exactly when its colour is in the mask, the new pool and list are given exactly, and the measure drops. |
| Astar.AStar.AstarSearch | Pathfinding/Private/AStar.cpp:42-126 | True comes with a path from start to destination under the search's rules, destination first and start left out. False comes with an empty path, and no path the rules allow with running totals below INT_MAX reaches the destination. Start equal to destination gives true and an empty path. |
| Astar.AStar.GetPath | Pathfinding/Private/AStar.cpp:18-40 | Checks the destination first. If that check fails, the result is false and the caller's path is left as it was. Otherwise it is the A\* answer under the crossing mask and the height test. |
| Astar.AStar.GetShortestPath | Pathfinding/Private/AStar.cpp:13-16 | The A\* answer with every masked colour passable and no block test. |
| AstarSpec.VisitNeighborSettles | Pathfinding/Private/AStar.cpp:81-120 | One A\* neighbour visit only opens nodes: a node that is reached and off the list afterwards was so before, at the same cost. If the step onto the neighbour is allowed, the neighbour is then reached at no more than the cost through the current node, unless that total reaches INT_MAX. |
| AstarSpec.VisitNeighborKeepsInv | Pathfinding/Private/AStar.cpp:81-120 | One A\* neighbour visit through a node that may be left keeps the search invariant and the current node, and only lowers costs. |
| AstarSpec.VisitNeighborsSettles | Pathfinding/Private/AStar.cpp:74-121 | The A\* neighbour loop keeps the invariant, only opens nodes, and leaves every allowed neighbour of the current node relaxed through it. |
| AstarSpec.PassKeepsSettled | Pathfinding/Private/AStar.cpp:47-121 | A pass of the A\* loop that does not pop the destination keeps two facts: every reached, closed node that may be left has all its allowed neighbours relaxed, and a reached destination is on the open list. |
| AstarSpec.ReachedAlong | Pathfinding/Private/AStar.cpp:47-122 | Once the list is empty, every tile of an allowed path from the start whose totals stay below INT_MAX has a reached node, at no more than the path's cost so far. |
| AstarSpec.ExhaustedNoPath | Pathfinding/Private/AStar.cpp:122-125 | When the A\* loop ends with an empty list, no allowed path with totals below INT_MAX leads from start to the destination. |

## Left out

- The hex grid is not part of this model. Its queries are fields of the `Grid.HexGrid` value. The searches require `Valid()`, meaning every neighbour is an in-bounds tile, and they rely on step costs being positive (the `PosInt` type). The distance estimate is a natural number, which A\* relies on when it compares totals. The set of tiles is finite, which the termination measure relies on. Nothing else is assumed about the grid.
- The heap inside the open list (`HeapPush`/`HeapPop`) is not modelled. The list is a sequence of indices, and `Pathfinding.OpenList.PopIndex` removes any index that is minimal by live cost. A real heap whose keys were lowered in place may pop an index that is not minimal. Only `SearchSteps.PopAndClose` and the three passes that call it (both `VisitNext` methods and `NestedPass`) state minimality; no search result relies on it.
- Global optimality of any path or range is not stated. The source does not promise it: heap keys are lowered while queued, and A\* sorts by cost rather than total cost.
- 32-bit arithmetic is not modelled. Costs and totals are unbounded integers, so the case where the source's `int32` sums wrap on paths costing more than `INT_MAX` is not captured.
- Pathfinding.NewNode: the source leaves `parentPos` and `tileData` unset; the model gives them fixed placeholder values. A node's tile data is a copy the pool reads once, where the source keeps a pointer into the grid.
- `Initialize` is modelled as the engine constructors. The state of an engine whose grid pointer is still null is not modelled.
- The engines hold a reference to the popped node across `FindOrAdd`, and that reference is only valid while the pool does not reallocate. The model reads the node by index instead. It does keep the one reference effect the source relies on, the slot overwrite in path reconstruction.
- The `Reserve` capacities (`Policy::NodePoolSize`, `Policy::OpenSetSize`) and `PopIndex`'s shrinking flag are performance details with no behaviour.
- The ring grouping of the range output is not modelled. The header comment at `Pathfinding/Dijkstra/MovementRange.h:36` claims it, but the code returns a flat list.
- The `validStart` field is never read, and it is not modelled.
- Dijkstra.MovementRange.GetTilesInRange: completeness is not stated, namely that every tile reachable within the budget is output. The source does not guarantee it. A key lowered in place can leave the heap out of order: a node lowered from 10 to 7 under a parent holding 8 lets the over-budget 8 pop first, and the loop then stops (`Pathfinding/Private/MovementRange.cpp:73`) before the tile at 7 is stored. What each pass does is stated exactly by VisitNext.
- Dijkstra.MovementRange.ReachableTileExist: a false result is only characterised for a negative budget. Proving that false means no tile of the wanted colour is reachable would need the same completeness, which fails for the same reason.
- Dijkstra.MovementRange.NestedFill: a false result is only characterised for a negative budget, for the reason given for `ReachableTileExist` above. Each pass is stated exactly by `NestedPass`.
- Dijkstra.MovementRange.KeepSurvivors: only the kept direction is proved, namely that every kept tile survives. That a removed tile has no reachable stop tile depends on the completeness of `ReachableTileExist` above.
- Dijkstra.MovementRange.GetMovementRange: the header's promise that the first output tile is the origin is proved for the flood fill only. The filter may remove the origin, as the code allows.
- Astar.AStar.AstarSearch: false is proved to mean that no allowed path reaches the destination only among paths whose running totals stay below INT_MAX. The source cannot record a larger total, and its 32-bit sums would wrap.
- The path contract in `Pathfinding/Astar/AStar.h:40-42` says the path includes the destination. The code hands out an empty path when start is the destination, and the model follows the code.
- The game AI that calls these engines, and the module's build file, are not part of this model.
