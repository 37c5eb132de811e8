# Grid A* pathfinding walkthrough — a verified Dafny model

This project models the pathfinding core of the Unity demo "PathfindingWalkthroughDemo":

- the tile grid the world controller fills at start-up;
- its bounds-checked lookup and its neighbour query (N, E, S, W, then NE, SE, SW, NW);
- the tile graph built from the grid, with its edge admission rule (passable neighbour, no cut wall corner);
- regeneration of the edges around an edited tile;
- the A* search, both as the graph's own `FindPath` loop and as the resumable `Pathfinder` that the demo steps one expansion at a time;
- the path object with its count-down cursor;
- the in-place Fisher-Yates shuffle of the array helper.

## Modelling choices

- **Identity.** Tiles are one-to-one with grid coordinates, so a position (`Tiles.Pos`) is a tile's identity and the key of its graph node.
  - `Tile` is a value: a fixed position and a type.
  - Retyping a tile is `Grids.Grid.Retype` on the world's grid.
- **World.** `WorldController` is a class over an `array2<Tile>`. A ghost field `grid` mirrors the array as a value (`Grids.Grid`); the graph and the search read that value.
- **Graph.** A node is a value `Node(Data, Edges)`, with `Edges` absent until generated. The `Nodes` dictionary is a `map<Pos, Node>` field of the `Tilegraph` class, which its methods reassign.
- **Search state.** The open set, closed set, came-from map and G/H costs form one value (`Search.SearchState`).
  - One expansion (`Search.Step`) is proved once, and both drivers use it:
    - `Tilegraph.FindPath` runs it in a loop over local state;
    - `Pathfinder` keeps it in fields and runs one step per call.
  - The source keeps costs on shared `Node` objects that persist between searches. Here they live in maps local to one search. The two agree, because a search compares only the G costs of nodes in its own open set, and it wrote those itself.
  - The open set's priority is G + H. Pathfinder.cs writes `HCost` and enqueues at `FCost` (G + H). Tilegraph.cs writes `FCost = G + heuristic` directly. The two give the same priority.
- **Priority queue.** The queue's source is not part of this model. It is kept abstract as a finite map from node to priority:
  - `Dequeue` returns some node of least priority, with ties broken arbitrarily;
  - `Contains` tests membership;
  - `EnqueueOrUpdate` sets a priority.
- **Numbers.** Costs are `real`, not `float`.
  - `Mathf.Sqrt` is a parameter `sqrt: real -> real`, about which nothing is assumed.
  - The diagonal length is the literal 1.41421356237 of the source.
- **Randomness.**
  - The random obstacles of the grid fill are a parameter: the set of cells whose draw came out under the obstacle chance.
  - Shuffle's `Random.Range(0, i + 1)` is an arbitrary choice `j` in `[0, i]`. The choices made are returned as ghost "draws".
- **Null.** A null tile or path is `Option.None`. `TilePath?` stays a nullable class reference.
- **Correctness notions.**
  - A route (`Search.IsRoute`) is a sequence of nodes from one node to another, each joined to the next by an edge.
  - The search is proved sound: a path it returns is a route from start to goal, rebuilt along the came-from chain.
  - It is proved complete in the weak sense the loop gives: when the open set runs empty without reaching the goal, no route exists. This uses the invariant that every edge out of a closed node stays inside the open and closed sets.
  - The closed set grows by one node per non-goal step, which bounds the loop.
  - A ghost `rank` numbers closed nodes in closing order. It shows that every came-from parent was closed before its child, so rebuilding the path terminates.

Where the code and its documentation differ, the model follows the code:

- Enumerating a `TilePath` yields the stored tiles last to first (`Reverse().GetEnumerator()`), that is goal first.
- `Regenerate` looks a non-null tile up with the dictionary indexer, which throws for a missing key. The model requires the tile to be a key.

## Model

| member | source | states |
|---|---|---|
| Tiles.Tile.MovementCost | Assets/Game/Scripts/Tile.cs:37-48 | the cost is 1 exactly for Floor and 0 for every other type, so it is never negative |
| Tiles.Tile.WithType | Assets/Game/Scripts/Tile.cs:11-31 | setting `Type` keeps the position given at construction, and the cost follows the new type at once (positive iff Floor) |
| Grids.Grid.TileAt | Assets/Game/Scripts/WorldController.cs:412-416 | nothing exactly when x or y is out of range; otherwise the stored tile, whose position is (x, y) |
| Grids.Grid.Cost | Assets/Game/Scripts/Tile.cs:21 | an in-bounds cell's movement cost is never negative |
| Grids.Grid.Neighbours | Assets/Game/Scripts/WorldController.cs:428-456 | 4 slots, or 8 with diagonals; slot k holds the lookup at the k-th offset (N, E, S, W, NE, SE, SW, NW) and is empty exactly when that offset is off the grid |
| Grids.Grid.Retype | Assets/Game/Scripts/WorldController.cs:191-195 | retyping the tile at p changes only that cell, and only its type |
| Grids.CardinalSlotsAgree | Assets/Game/Scripts/WorldController.cs:435-444 | the first four slots are the same with or without diagonals |
| Worlds.InitialType | Assets/Game/Scripts/WorldController.cs:81-97 | start-up type: floor unless the obstacle draw hit; in maze mode floor exactly on odd/odd cells; always Floor or Wall |
| Worlds.WorldController.constructor | Assets/Game/Scripts/WorldController.cs:74-99 | the nested fill leaves every in-bounds cell holding a tile at its own position with its start-up type |
| Worlds.WorldController.GetTileAt | Assets/Game/Scripts/WorldController.cs:412-416 | nothing exactly when out of bounds; otherwise the tile of the array at (x, y) |
| Worlds.WorldController.GetNeighbours | Assets/Game/Scripts/WorldController.cs:428-456 | the fresh array filled slot by slot equals the neighbour slots of the grid |
| Worlds.WorldController.SetType | Assets/Game/Scripts/WorldController.cs:191-195 | assigning a type to one tile of the array is exactly `Retype` of the grid; the array stays in step with the grid |
| Graphs.IsClippingCorner | Assets/Game/Scripts/Pathfinding/Tilegraph.cs:118-125 | true only when \|dx\|+\|dy\| = 2; for a diagonal step, true iff cell (neighbour.x, current.y) or (current.x, neighbour.y) has cost 0; both probes are in bounds |
| Graphs.Admits | Assets/Game/Scripts/Pathfinding/Tilegraph.cs:115 | an admitted slot holds a Floor tile; a slot holding any other type is never admitted |
| Graphs.EdgesFor | Assets/Game/Scripts/Pathfinding/Tilegraph.cs:112-116 | at most one edge per neighbour slot, so at most eight, and each edge costs 1, the movement cost of the floor tile it leads to |
| Graphs.SlotTile | Assets/Game/Scripts/WorldController.cs:435-453 | the tile in a filled neighbour slot is the in-bounds cell at that slot's offset, next to the tile and not the tile itself, and its cost is the grid's |
| Graphs.Admit | Assets/Game/Scripts/Pathfinding/Tilegraph.cs:115 | the comprehension keeps exactly the admitted slots: every edge comes from an admitted slot, and every admitted slot gives an edge |
| Graphs.EdgeAdmission | Assets/Game/Scripts/Pathfinding/Tilegraph.cs:114-115 | both directions of the admission rule for a cell's edges |
| Graphs.EdgesAreAdmitted | Assets/Game/Scripts/Pathfinding/Tilegraph.cs:114-115 | every edge targets an in-bounds neighbour other than the cell itself; the target has positive cost and is not corner-clipping; the edge's cost is the target's movement cost |
| Graphs.AdmittedAreEdges | Assets/Game/Scripts/Pathfinding/Tilegraph.cs:114-115 | every in-bounds neighbour with positive cost that is not corner-clipping has its edge |
| Graphs.SlotOffsets | Assets/Game/Scripts/WorldController.cs:435-453 | the eight slot offsets are the eight cells around a tile; the first four are the unit steps |
| Graphs.AdmitLocal | Assets/Game/Scripts/Pathfinding/Tilegraph.cs:115-124 | admission reads only the 3x3 neighbourhood: grids that agree there admit the same edges |
| Graphs.EdgesLocal | Assets/Game/Scripts/Pathfinding/Tilegraph.cs:112-125 | a cell's edge list depends only on its 3x3 neighbourhood |
| Graphs.Regenerated | Assets/Game/Scripts/Pathfinding/Tilegraph.cs:30-43 | the tile's node and its neighbours' nodes get fresh edge lists; every other node, and every node's data, is kept |
| Graphs.RegenerateIdempotent | Assets/Game/Scripts/Pathfinding/Tilegraph.cs:30-43 | regenerating the same tile twice, with no grid change between, gives what regenerating once gives |
| Graphs.RetypeAgreesAway | Assets/Game/Scripts/WorldController.cs:195-198 | retyping a tile leaves the neighbourhood of every cell not adjacent to it unchanged |
| Graphs.RetypeKeepsFarEdges | Assets/Game/Scripts/Pathfinding/Tilegraph.cs:37-42 | after a retype, the edge lists of cells not adjacent to it are still right, so only the tile and its neighbours need regenerating |
| Graphs.RegenerateRestoresConsistency | Assets/Game/Scripts/WorldController.cs:195-198 | retyping a tile and then regenerating it turns a graph consistent with the old grid into one consistent with the new grid |
| Graphs.ConsistentIsSearchable | Assets/Game/Scripts/Pathfinding/Tilegraph.cs:115 | in a consistent graph every node has an edge list, and every edge leads to a node on a neighbouring cell |
| Tilegraphs.NodesWithoutEdges | Assets/Game/Scripts/Pathfinding/Tilegraph.cs:13-22 | one node per in-bounds cell, keyed by its tile, with `Data` that tile and no edges yet |
| Tilegraphs.Tilegraph.constructor | Assets/Game/Scripts/Pathfinding/Tilegraph.cs:10-28 | after construction every cell has its node, every node has an edge list, and every edge list is the one admission gives |
| Tilegraphs.Tilegraph.GenerateAllEdges | Assets/Game/Scripts/Pathfinding/Tilegraph.cs:24-27 | generating every node's edges makes the graph consistent with the grid |
| Tilegraphs.Tilegraph.GenerateEdges | Assets/Game/Scripts/Pathfinding/Tilegraph.cs:112-116 | only the given node changes, and it gets the admitted edge list |
| Tilegraphs.Tilegraph.Regenerate | Assets/Game/Scripts/Pathfinding/Tilegraph.cs:30-43 | null changes nothing; otherwise the node map becomes `Regenerated` around the tile on the current grid |
| Tilegraphs.RefreshNear | Assets/Game/Scripts/Pathfinding/Tilegraph.cs:34-42 | generating edges for the tile and for each of its non-null neighbours is the same as regenerating around the tile |
| Tilegraphs.RefreshedSlotsRegenerate | Assets/Game/Scripts/Pathfinding/Tilegraph.cs:30-43 | refreshing the tile and its eight neighbour slots is the regeneration around it, and keeps the graph keyed and linked |
| Tilegraphs.RegeneratedKeepsLinked | Assets/Game/Scripts/Pathfinding/Tilegraph.cs:30-43 | regeneration keeps one node per cell and keeps every edge leading to a node |
| Tilegraphs.Tilegraph.FindPath | Assets/Game/Scripts/Pathfinding/Tilegraph.cs:45-80 | null for a null tile or a tile without a node; a returned path is a route from start to end with a fresh cursor; null for two known tiles means no route exists |
| Sequences.Reversed | Assets/Game/Scripts/Pathfinding/TilePath.cs:22 | the reversal has the same length, and element i is element \|s\|-1-i |
| Sequences.ReversedSnoc | Assets/Game/Scripts/Pathfinding/TilePath.cs:11 | the last element of a sequence comes first in its reversal |
| PriorityQueue.MinOf | Assets/Game/Scripts/Pathfinding/Pathfinder.cs:48 | a non-empty queue has an item of least priority |
| PriorityQueue.Dequeue | Assets/Game/Scripts/Pathfinding/Pathfinder.cs:48 | returns an item of least priority and the queue without it |
| PriorityQueue.Contains | Assets/Game/Scripts/Pathfinding/Pathfinder.cs:64 | true exactly for the items in the queue |
| PriorityQueue.ContainsAfterEnqueue | Assets/Game/Scripts/Pathfinding/Pathfinder.cs:64-70 | after an enqueue or update the queue contains exactly the item and what it held before |
| PriorityQueue.EnqueueOrUpdate | Assets/Game/Scripts/Pathfinding/Pathfinder.cs:70 | the item is present with the given priority; every other item keeps its priority |
| Search.Heuristic | Assets/Game/Scripts/Pathfinding/Pathfinder.cs:104-110 | the straight-line distance √(dx²+dy²) to the goal, equal to the search's step length for every pair that is neither a unit nor a diagonal step |
| Search.DistanceAsWritten | Assets/Game/Scripts/Pathfinding/Pathfinder.cs:92-102 | as written: every pair with \|dx\| = 1 that is not a unit step gets the diagonal length; where \|dx\| ≠ 1 it equals the corrected distance |
| Search.DistanceAsWrittenMisjudges | Assets/Game/Scripts/Pathfinding/Pathfinder.cs:92-102 | the pair (0,0),(1,3) is not diagonal, yet the as-written test gives it the diagonal length, which differs from the corrected distance √10 for any exact square root of 10 |
| Search.DistanceBetween | Assets/Game/Scripts/Pathfinding/Pathfinder.cs:92-102 | 1 for a unit step, the √2 literal for a diagonal step, and the Euclidean distance otherwise |
| Search.DistanceAgreesOnNeighbours | Assets/Game/Scripts/Pathfinding/Tilegraph.cs:135-145 | on adjacent cells, the only ones the search asks about, the as-written and the corrected distance agree |
| Search.Tentative | Assets/Game/Scripts/Pathfinding/Pathfinder.cs:61-62 | current's G plus the neighbour's movement cost for a unit step, plus cost × the √2 literal for a diagonal step, and just current's G onto a zero-cost tile |
| Search.TentativeAsWritten | Assets/Game/Scripts/Pathfinding/Pathfinder.cs:61-62 | along every edge of a searchable graph the search's tentative cost equals the one the as-written distance gives |
| Search.StepCostAsWritten | Assets/Game/Scripts/Pathfinding/Pathfinder.cs:61-62 | between neighbouring cells the tentative cost is the same with either distance |
| Search.Init | Assets/Game/Scripts/Pathfinding/Pathfinder.cs:25-32 | open set {start} at priority 0, nothing closed, no parents, G(start) = 0, H(start) = heuristic distance to the goal |
| Search.InitInv | Assets/Game/Scripts/Pathfinding/Pathfinder.cs:20-33 | the initial state satisfies the search invariant and the closure property |
| Search.ConstructPath | Assets/Game/Scripts/Pathfinding/Pathfinder.cs:74-90 | the walk back along the came-from map terminates; reversed, it begins at a node without a parent, ends at the goal, and each node is preceded by its parent |
| Search.CameFromRoute | Assets/Game/Scripts/Pathfinding/Pathfinder.cs:55-90 | under the invariant, the rebuilt path is a route from the start to the goal along graph edges |
| Search.RelaxEdge | Assets/Game/Scripts/Pathfinding/Pathfinder.cs:58-70 | the closed set never changes; a closed neighbour changes nothing; otherwise the neighbour is open afterwards with G no higher than before; a change gives it the current node as parent and priority G + H |
| Search.RelaxStep | Assets/Game/Scripts/Pathfinding/Pathfinder.cs:56-71 | relaxing one more edge target keeps the loop invariant of the expansion |
| Search.RelaxSkipped | Assets/Game/Scripts/Pathfinding/Pathfinder.cs:59-64 | a neighbour that is closed, or open with no better tentative cost, is skipped and the invariant holds |
| Search.RelaxUpdated | Assets/Game/Scripts/Pathfinding/Pathfinder.cs:64-70 | an updated neighbour keeps the invariant |
| Search.RelaxUpdatedNodes | Assets/Game/Scripts/Pathfinding/Pathfinder.cs:66-70 | after an update, updated nodes are relaxed through the current node and all others untouched |
| Search.RelaxedNew | Assets/Game/Scripts/Pathfinding/Pathfinder.cs:61-70 | the updated neighbour gets the current node as parent, the tentative G, its heuristic H, and priority G + H |
| Search.UntouchedAfterUpdate | Assets/Game/Scripts/Pathfinding/Pathfinder.cs:66-70 | an update changes nothing about any other node |
| Search.RelaxUpdatedEdges | Assets/Game/Scripts/Pathfinding/Pathfinder.cs:56-70 | after an update, each edge target seen so far was updated exactly when the relaxation test passed, and is open or closed |
| Search.Expand | Assets/Game/Scripts/Pathfinding/Pathfinder.cs:55-71 | the current node joins the closed set; each neighbour outside it is updated exactly when its tentative cost beats its open G cost (or it is new), and nothing else changes |
| Search.ExpandKeepsInv | Assets/Game/Scripts/Pathfinding/Pathfinder.cs:55-71 | an expansion keeps the search invariant, and it keeps the closure property |
| Search.SetsAfterExpand | Assets/Game/Scripts/Pathfinding/Pathfinder.cs:55-59 | open and closed stay disjoint sets of graph nodes, the goal is never closed, and closed nodes are never reopened |
| Search.TreeAfterExpand | Assets/Game/Scripts/Pathfinding/Pathfinder.cs:55-66 | the came-from map stays a tree of ranked closed parents rooted at the start |
| Search.StartClosedAfterExpand | Assets/Game/Scripts/Pathfinding/Pathfinder.cs:55 | after any expansion the start is closed |
| Search.OpenAfterExpand | Assets/Game/Scripts/Pathfinding/Pathfinder.cs:55-70 | every open node is a graph node outside the closed set |
| Search.CameFromAfterExpand | Assets/Game/Scripts/Pathfinding/Pathfinder.cs:66 | the start never gets a parent; every other reached node has one |
| Search.ParentsAfterExpand | Assets/Game/Scripts/Pathfinding/Pathfinder.cs:55-66 | every parent is closed, has an edge to its child and was closed before it |
| Search.FrontierGrows | Assets/Game/Scripts/Pathfinding/Pathfinder.cs:55-70 | a node once open or closed stays open or closed |
| Search.RanksAfterClose | Assets/Game/Scripts/Pathfinding/Pathfinder.cs:55 | closing one more node gives it the next rank, and every rank stays below the number of closed nodes |
| Search.ClosureCarries | Assets/Game/Scripts/Pathfinding/Pathfinder.cs:56-70 | every edge out of a closed node leads to an open or closed node (or the goal) |
| Search.ParentsRanked | Assets/Game/Scripts/Pathfinding/Pathfinder.cs:66-87 | every parent has a lower rank than its child, so the walk back terminates |
| Search.FoundKeepsInv | Assets/Game/Scripts/Pathfinding/Pathfinder.cs:48-53 | taking the goal out of the open set keeps the invariant |
| Search.Step | Assets/Game/Scripts/Pathfinding/Pathfinder.cs:46-72 | one step keeps the invariant; on the goal it returns the route rebuilt along the came-from chain and changes nothing but the open set; otherwise it expands a least node, and the closed set strictly grows |
| Search.ClosedIsReachClosed | Assets/Game/Scripts/Pathfinding/Pathfinder.cs:37-41 | with the open set empty, every route from a closed node ends at a closed node |
| Search.NoRouteWhenExhausted | Assets/Game/Scripts/Pathfinding/Pathfinder.cs:35-44 | an open set emptied without reaching the goal means no route from start to goal exists |
| Paths.TilePath.Length | Assets/Game/Scripts/Pathfinding/TilePath.cs:7 | the number of stored tiles, 0 when there are none |
| Paths.TilePath.constructor | Assets/Game/Scripts/Pathfinding/TilePath.cs:16-20 | the tiles are stored and the cursor starts on the last one; the cursor will hand the tiles out last to first |
| Paths.TilePath.StartTile | Assets/Game/Scripts/Pathfinding/TilePath.cs:9 | the first stored tile, nothing when there is no path |
| Paths.TilePath.DestinationTile | Assets/Game/Scripts/Pathfinding/TilePath.cs:10 | the last stored tile, nothing when there is no path |
| Paths.TilePath.Reverse | Assets/Game/Scripts/Pathfinding/TilePath.cs:22-24 | the stored tiles last to first; it reads neither the cursor nor anything else that changes |
| Paths.TilePath.NextTile | Assets/Game/Scripts/Pathfinding/TilePath.cs:11 | the tile under the cursor, and the cursor moves down one; past the first tile it gives nothing and stays put |
| Paths.FreshCursorYieldsReverse | Assets/Game/Scripts/Pathfinding/TilePath.cs:11-24 | a fresh cursor hands out exactly the tiles enumeration yields |
| Pathfinders.Pathfinder.constructor | Assets/Game/Scripts/Pathfinding/Pathfinder.cs:20-33 | open set {start} at 0, closed and came-from empty, G(start) = 0, H(start) = heuristic, no path, so neither found nor complete |
| Pathfinders.Pathfinder.ExecutePathfindingStep | Assets/Game/Scripts/Pathfinding/Pathfinder.cs:46-72 | dequeuing the end node sets a fresh path along the came-from chain and leaves closed set, parents and costs alone; any other node is expanded, leaving the path as it was |
| Pathfinders.Pathfinder.FindPath | Assets/Game/Scripts/Pathfinding/Pathfinder.cs:35-44 | steps until a path is found or the open set is empty; the result is the path, a route from start to end when non-null, and null only when the search is complete and no route exists |
| Pathfinders.Pathfinder.SearchIsComplete | Assets/Game/Scripts/Pathfinding/Pathfinder.cs:11 | complete exactly when the open set is empty |
| Pathfinders.Pathfinder.HasFoundPath | Assets/Game/Scripts/Pathfinding/Pathfinder.cs:12 | a path has been found exactly when the search state holds a path of tiles |
| Pathfinders.Pathfinder.GetOpenSet | Assets/Game/Scripts/Pathfinding/Pathfinder.cs:112 | the open nodes: graph nodes, none closed; before the first step exactly the start |
| Pathfinders.Pathfinder.GetClosedSet | Assets/Game/Scripts/Pathfinding/Pathfinder.cs:113 | the closed nodes: graph nodes, never the end node, and the start among them once any node is closed |
| Pathfinders.Pathfinder.IsInOpenSet | Assets/Game/Scripts/Pathfinding/Pathfinder.cs:115 | true exactly for the nodes of the open set |
| Pathfinders.Pathfinder.IsInClosedSet | Assets/Game/Scripts/Pathfinding/Pathfinder.cs:116 | true exactly for the nodes of the closed set |
| Pathfinders.Pathfinder.OpenAndClosedAreDisjoint | Assets/Game/Scripts/Pathfinding/Pathfinder.cs:115-116 | no node is reported both in the open set and in the closed set |
| Pathfinders.Pathfinder.CompleteWithoutPath | Assets/Game/Scripts/Pathfinding/Pathfinder.cs:11-12 | a complete search with no path found proves the end unreachable |
| ArrayHelper.Swap | Assets/Game/Scripts/ArrayHelper.cs:10-12 | the two positions exchange their elements and every other position keeps its element |
| ArrayHelper.SwapPermutes | Assets/Game/Scripts/ArrayHelper.cs:10-12 | an exchange keeps the multiset of elements |
| ArrayHelper.Shuffled | Assets/Game/Scripts/ArrayHelper.cs:7-13 | the array after the first k rounds of the draws, round k-1 exchanging position length-k with its draw; its length is kept |
| ArrayHelper.ShuffledPermutes | Assets/Game/Scripts/ArrayHelper.cs:7-13 | any number of rounds keeps the multiset of elements, so the result is a permutation of the input |
| ArrayHelper.RoundsAgree | Assets/Game/Scripts/ArrayHelper.cs:7-9 | the first k rounds depend only on the first k draws |
| ArrayHelper.PlacedStays | Assets/Game/Scripts/ArrayHelper.cs:7-12 | a position a round has already worked on is never touched by a later round |
| ArrayHelper.DrawsExtend | Assets/Game/Scripts/ArrayHelper.cs:7-9 | a draw in [0, i] for the next index i extends a valid run of draws |
| ArrayHelper.NextRound | Assets/Game/Scripts/ArrayHelper.cs:7-13 | one more loop iteration is one more round: the current array with position i exchanged with the new draw |
| ArrayHelper.Exchange | Assets/Game/Scripts/ArrayHelper.cs:10-12 | the three assignments through `temp` leave the array equal to the exchange of positions i and j |
| ArrayHelper.Shuffle | Assets/Game/Scripts/ArrayHelper.cs:5-16 | returns the same array; it holds a permutation of the input, namely the result of the rounds of the draws, one round per index from the last down to 1; arrays of length 0 or 1 are unchanged |

## Left out

- Unity and display: rendering, sprites, the camera, the UI, mouse and keyboard input, timers, `SpawnTile`, maze carving (`GenerateMaze`) and `GetTileAtWorldCoordinate`. The grid fill takes the random obstacle draws as a parameter.
- Floating point: costs are reals, `Mathf.Sqrt` is an arbitrary function, and `Mathf.Pow(d, 2)` is `d * d`. Rounding is not modelled, and neither is optimality of the returned path, which depends on the heuristic.
- `CalculateHeuristicCost` with a null goal returns 0. Goals here are always nodes, so that branch is not modelled.
- Pathfinders.Pathfinder.ExecutePathfindingStep: requires a non-empty open set. The queue whose `Dequeue` would fail on an empty set is not part of this model.
- Pathfinders.Pathfinder.constructor: takes the node map and grid it searches, and requires both nodes in the map. The source reaches the graph through the node objects it is handed.
- A `Pathfinder` here searches a fixed node map. In the demo, a tile edited between two steps regenerates edges under a search in progress; the model does not cover that interleaving.
- Pathfinders.Pathfinder.GetOpenSet and GetClosedSet: give sets, not ordered read-only lists. The order of the source's lists depends on the hash set and the queue.
- Tilegraphs.Tilegraph.Regenerate: requires a non-null tile to have a node. The source's dictionary indexer throws otherwise.
- Paths.TilePath.StartTile and DestinationTile: require a non-empty stored array when there is one. Indexing an empty array throws in the source.
- `Debug.LogError` is not modelled; only the null return after it is.
- Aliasing of `Node` objects between the graph and the searches is not modelled: nodes are values, and costs live in per-search maps (see Modelling choices).
- `Node.cs` declares `FCost` as a settable property and no `HCost`, while `Pathfinder.cs` and `TileInstance.cs` use `HCost`. The model follows the search code's use: F = G + H.

## Findings

| source | as written | input that shows it | evidently intended | confidence | as-written member | corrected member |
|---|---|---|---|---|---|---|
| Assets/Game/Scripts/Pathfinding/Pathfinder.cs:98 (and Tilegraph.cs:141) | the diagonal test reads `Mathf.Abs(delta.x) == 1 && Mathf.Abs(delta.x) == 1`, checking x twice | a = (0,0), b = (1,3): \|dx\| = 1, so the result is 1.41421356237 rather than √10 | `Mathf.Abs(delta.x) == 1 && Mathf.Abs(delta.y) == 1`, the √2 shortcut only for diagonal neighbours | high; not executed | Search.DistanceAsWritten, Search.DistanceAsWrittenMisjudges | Search.DistanceBetween, which the search uses; Search.TentativeAsWritten proves that along every edge the search's step cost equals the as-written one, because a searchable graph (Graphs.Searchable) only has edges between neighbouring cells, which Graphs.ConsistentIsSearchable proves for every graph built by edge generation |
