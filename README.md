# Pathfinding visualiser: a verified model of its algorithms

The pathfinding visualiser draws a 20 by 50 grid of nodes, lets the user toggle walls, and animates one of six searches from a start node at (5, 5) to a finish node at (10, 35):

- Dijkstra's algorithm, A* and greedy best-first search, which are weighted;
- breadth-first search, depth-first search and a bidirectional breadth-first search, which are unweighted.

It also ships two maze generators: a randomised depth-first backtracker (named "recursive division") and randomised Prim's algorithm.

This project models, in Dafny, the algorithms module (`src/algorithms.js`) and the grid helpers of the `Grid` component (`src/components/Grid.jsx`).

**How the grid is modelled**
- The grid is an `array2<Node>`. `Node` is a datatype with the fields of the JavaScript node objects.
- A reference to a node object is its `Cell(row, col)`. `getNeighbors` and `manhattanDistance` read a node's own `row` and `col`, so every search requires a grid that stores each node at its own row and column (`Nodes.Shaped`). On such a grid a node and its cell determine each other. `GridSetup.GetInitialGrid` and `GridSetup.ResetGrid` build such grids, and the wall toggle keeps them so.
- The searches update the nodes in place: `distance`, `g`, `h`, `f`, `isVisited`, `previousNode` and `nextNode`. They are methods that modify the grid.
- Their loops carry invariants over a value view of the grid (`Nodes.View`, a map from cells to nodes).

**What is proved about the five single-source searches** (Dijkstra, A*, greedy, BFS and DFS; `Helpers.SoundResult`, `Helpers.CompleteResult`)
- The visited list holds open cells, each once, starting with the start.
- A path is returned exactly when the finish was visited. The path is then a walk from the start to the finish through visited cells.
- An empty path means that no walk leads from the open start to the open finish.
- Dijkstra: the path costs the finish's `distance`, and no walk from the start to the finish costs less.
- BFS: no walk from the start to the finish has fewer steps than the path.
- A*: the path costs the finish's `g`. When every cached `h` is unset or the Manhattan distance to the finish, no walk costs less.

**What is proved about the bidirectional search** (`Bidirectional.Answered`)
- The visits start at the start and are marked.
- A non-empty path is a walk from the start to the finish.
- When the start is not the finish, no cell is listed or walked twice, and an empty path means the open finish is unreachable from the open start.
- The visited list need not hold the finish or every cell of the path: when the start is next to the finish, the first meeting returns the visits `[start]` and the path `[start, finish]`.

**What is proved about each maze generator**
- The carved region is connected and holds every lattice cell of the start.
- The returned walls are exactly the uncarved cells other than the start and the finish that the random coin keeps, listed row by row.

**Modules**
- `Nodes` (the grid and nodes), `Wrappers` (Option), `Helpers` (lines 3-37), `Sorting` (the sort comparators), `Trees` (`previousNode` trees).
- One module per search: `Dijkstra`, `AStar`, `Greedy`, `Bfs`, `Dfs`, `Bidirectional`, with `Frontier` holding the invariant shared by DFS, greedy, A* and BFS.
- `Dispatch` (`runAlgorithm`).
- `Mazes`, `Division` and `Prims` for the maze generators.
- `GridSetup` for Grid.jsx.

**Randomness** appears as parameters:
- the outcome of each `sort(() => Math.random() - 0.5)` shuffle is a list of choices (`Mazes.Shuffled`), and every order of the four jumps is reachable;
- each `Math.floor(Math.random() * n)` is a draw `pick(i)` taken modulo `n`;
- each `Math.random() > 0.1` is a predicate `staysWall` on cells.

## Model

| member | source | states |
|---|---|---|
| Nodes.EffectiveWeight | src/algorithms.js:73 | `node.weight \|\| 1` is at least 1 and equals the weight when one is set |
| Nodes.MarkVisited | src/algorithms.js:65 | `node.isVisited = true` changes that one field of that one node and nothing else |
| Nodes.Shrinks | src/algorithms.js:59 | a set of visited cells that grows inside the grid leaves fewer cells outside it (the termination measure of every search loop) |
| Nodes.FrontPops | src/algorithms.js:158 | `queue.shift()` on a queue without repeats removes its head entirely and keeps it repeat-free |
| Helpers.ManhattanDistance | src/algorithms.js:15-17 | the distance is zero exactly when the two cells coincide |
| Helpers.ManhattanTriangle | src/algorithms.js:15-17 | the Manhattan distance obeys the triangle inequality |
| Helpers.ManhattanAdmissible | src/algorithms.js:15-17 | the heuristic never overestimates: every walk has at least the Manhattan distance in steps, and costs at least its number of steps |
| Helpers.PrefixCostLe | src/algorithms.js:73 | a walk costs at least as much as any of its nonempty prefixes, every step costing at least 1 |
| Helpers.PathCostSplit | src/algorithms.js:73 | the cost of a walk is the cost up to any of its cells plus the cost from that cell on |
| Helpers.SuffixIsPath | src/algorithms.js:5-13 | the rest of a walk from any of its cells is a walk from that cell to the same end |
| Helpers.NonWalls | src/algorithms.js:12 | `filter(n => !n.isWall)` keeps exactly the non-wall cells, in order |
| Helpers.PushedMembers | src/algorithms.js:8-11 | the four guarded pushes produce exactly the in-grid orthogonal neighbours |
| Helpers.GetNeighbors | src/algorithms.js:5-13 | the neighbours are exactly the in-grid, open, orthogonal neighbours, at most four, in the order up, down, left, right |
| Helpers.NeighborsDistinct | src/algorithms.js:5-13 | no neighbour is listed twice |
| Helpers.GetAllNodes | src/algorithms.js:19-27 | every grid cell appears, row by row, `rows * cols` in all |
| Helpers.GetNodesInShortestPathOrder | src/algorithms.js:29-37 | following `previousNode` from the finish ends at a node without a link; the result ends with the finish and each node is the `previousNode` of the next |
| Helpers.ClosedSetSeparates | src/algorithms.js:59-81 | a closed set of expanded cells that holds the start but not the open finish means the finish is unreachable (the completeness argument of every search) |
| Helpers.ClosedKeepsWalkInside | src/algorithms.js:59-81 | a walk leaving a closed set can only end at a wall |
| Helpers.ReachableSymmetric | src/algorithms.js:194-237 | walks on the grid can be reversed |
| Sorting.Insert | src/algorithms.js:60 | inserting one cell keeps the cells, adding the new one |
| Sorting.InsertSorted | src/algorithms.js:60 | inserting into a sorted list keeps it sorted |
| Sorting.SortBy | src/algorithms.js:60 | `sort((a, b) => a.distance - b.distance)` returns a sorted permutation of the list |
| Sorting.TakeFirst | src/algorithms.js:60-61 | sort-then-shift takes a cell of least key and leaves the rest of the list |
| Trees.TracePath | src/algorithms.js:29-37 | reading back a `previousNode` tree gives a repetition-free walk from the root to the target, inside the tree |
| Dijkstra.Relaxed | src/algorithms.js:70-80 | relaxing a neighbour never raises its distance; an unvisited one ends within the new route's cost; a change sets the new distance and links back |
| Dijkstra.RelaxNeighbors | src/algorithms.js:69-80 | every neighbour is relaxed in place and every other node is unchanged |
| Dijkstra.InitialInv | src/algorithms.js:56-58 | after the start gets distance 0, the loop invariant holds with nothing visited |
| Dijkstra.SortKeepsInv | src/algorithms.js:60 | sorting the unvisited list keeps the invariant and sorts it by distance |
| Dijkstra.DropWallKeepsInv | src/algorithms.js:62 | dropping a wall keeps the invariant |
| Dijkstra.InfinityHeadAll | src/algorithms.js:63 | when the closest node is at `Infinity`, every unvisited node is |
| Dijkstra.InfinityHeadSeparates | src/algorithms.js:63 | stopping at `Infinity` means no walk reaches the open finish |
| Dijkstra.MarkKeepsInv | src/algorithms.js:65-66 | visiting the closest node keeps the links and the distance order, leaves every open neighbour of a visited node relaxed, and no open unvisited node nearer than it |
| Dijkstra.MarkKeepsTriangle | src/algorithms.js:60-66 | after the closest node is visited, between any two adjacent visited nodes the distance of one is at most the other's plus its own weight |
| Dijkstra.RelaxKeepsInv | src/algorithms.js:69-80 | relaxation restores the invariant around the new visited node |
| Dijkstra.LinksTree | src/algorithms.js:65-80 | the visited cells' `previousNode` links form a tree rooted at the start |
| Dijkstra.LinksOnGrid | src/algorithms.js:65-66 | the visited flags are exactly the visited list, which is open, repeat-free and in nondecreasing distance |
| Dijkstra.FoundResult | src/algorithms.js:67 | on reaching the finish the result is sound and complete, the visits come in distance order, the path costs the finish's distance, and no walk from the start to the finish costs less |
| Dijkstra.StoppedResult | src/algorithms.js:63 | stopping at `Infinity` gives a sound and complete empty result |
| Dijkstra.VisitClosest | src/algorithms.js:65-80 | visiting the closest node returns a path exactly when it is the finish, a walk through visited cells that costs the finish's distance with the finish settled, and otherwise keeps the invariant |
| Dijkstra.DistanceChain | src/algorithms.js:73-78 | following `previousNode` links back adds up the weights: the last node's distance is the first's plus the cost of the walk |
| Dijkstra.VisitedPrefixCost | src/algorithms.js:65-80 | along a walk from the start through visited nodes, each node's distance is at most the cost of the walk up to it |
| Dijkstra.SettledBound | src/algorithms.js:60-67 | no walk from the start to the node just visited costs less than its distance |
| Dijkstra.RelaxAround | src/algorithms.js:69-80 | relaxing around the visited node restores the loop invariant |
| Dijkstra.ClosestPass | src/algorithms.js:60-80 | each pass shortens the unvisited list and either keeps the invariant or returns a sound, complete, distance-ordered result whose path has least total weight |
| Dijkstra.Dijkstra | src/algorithms.js:55-82 | changes only distances, marks and links; returns no result only when the finish is a wall; otherwise the result is sound, complete, matches the visited flags and is ordered by distance, and a returned path costs the finish's distance and no walk from the start to the finish costs less |
| AStar.CachedHStable | src/algorithms.js:109 | `h \|\| manhattan` is idempotent and yields the Manhattan distance |
| AStar.ChainCost | src/algorithms.js:103-111 | following `previousNode` links adds up the weights: the `g` of a node is the cost of its chain |
| AStar.StepManhattan | src/algorithms.js:15-17 | one step changes the Manhattan distance to the finish by at most 1, so the cached heuristic is consistent |
| AStar.OptimalInitial | src/algorithms.js:86-88 | with Manhattan heuristics, the optimality invariant holds with only the start open |
| AStar.OptimalSkip | src/algorithms.js:93 | dropping a wall from the open list keeps the optimality invariant |
| AStar.OptimalMark | src/algorithms.js:91-96 | marking the node of least `f` keeps the triangle bound on `g` between visited nodes and leaves no visited node with a larger `f` |
| AStar.RelaxedScore | src/algorithms.js:101-111 | one relaxation keeps a Manhattan `h`, gives an unvisited neighbour at most the new route's `g`, never raises an open one, and scores a new one `f = g + h` |
| AStar.OptimalRelax | src/algorithms.js:99-114 | expanding the visited node restores the optimality invariant: every open neighbour of a visited node is relaxed and no visited node has a larger `f` than an open one |
| AStar.VisitedPrefixCost | src/algorithms.js:95-111 | along a walk from the start through visited nodes, each node's `g` is at most the cost of the walk up to it |
| AStar.OptimalBound | src/algorithms.js:90-97 | with Manhattan heuristics, no walk from the start to the finish just taken off the list costs less than its `g` |
| AStar.LeavingBound | src/algorithms.js:90-111 | a walk that first leaves the visited nodes for an open node costs at least the finish's `g` |
| AStar.ThroughOpen | src/algorithms.js:107-111 | a walk through an open node costs at least that node's `f`, hence at least the `g` of a finish taken before it |
| AStar.DetourCost | src/algorithms.js:103-111 | a walk splits at any inner cell into the cost before it, its weight and the rest, which costs at least its Manhattan distance to the finish |
| AStar.LeastCost | src/algorithms.js:97 | the path read back at the finish costs its `g`, so no walk from the start to the finish costs less |
| AStar.FreshMembers | src/algorithms.js:106-112 | the cells pushed are the unvisited neighbours not already open, each once |
| AStar.RelaxOne | src/algorithms.js:101-113 | one neighbour is relaxed in place and pushed only when it is new to the open list |
| AStar.RelaxNeighbors | src/algorithms.js:99-114 | each neighbour is relaxed and the new ones are appended to the open list |
| AStar.RelaxedFacts | src/algorithms.js:100-114 | relaxation changes only unvisited neighbours, which now link back to the current node |
| AStar.RelaxKeepsScores | src/algorithms.js:107-111 | relaxation keeps `f = g + h`, with `h` the cached heuristic |
| AStar.RelaxKeepsChain | src/algorithms.js:108-111 | relaxation keeps every `g` equal to its parent's `g` plus the node's weight |
| AStar.PushKeepsOpen | src/algorithms.js:112 | the open list stays free of repeats and of visited nodes |
| AStar.RelaxKeeps | src/algorithms.js:99-114 | relaxation from the visited node keeps the main-loop invariant |
| AStar.PopKeepsOpen | src/algorithms.js:91-92 | taking the best node keeps the open list repeat-free |
| AStar.MarkKeeps | src/algorithms.js:95-96 | marking the taken node keeps the invariant |
| AStar.Expand | src/algorithms.js:99-114 | expanding the visited node keeps the invariant, scores and cost chain, and with Manhattan heuristics the optimality invariant |
| AStar.FinishPath | src/algorithms.js:97 | the path returned at the finish is sound and complete and costs the finish's `g`; with Manhattan heuristics no walk costs less |
| AStar.VisitBest | src/algorithms.js:95-113 | visiting the taken node returns a least-cost path (under Manhattan heuristics) exactly at the finish, and otherwise keeps the invariant and the optimality invariant |
| AStar.AStarPass | src/algorithms.js:90-113 | each pass either returns a sound, complete result, of least cost under Manhattan heuristics, or keeps both invariants with a smaller measure |
| AStar.LeastF | src/algorithms.js:91-92 | the node sorted first by `f` has the least `f` on the open list |
| AStar.ScoreStart | src/algorithms.js:86-88 | the start gets `g = 0` and `f` its heuristic and is the only open node; with Manhattan heuristics the optimality invariant holds |
| AStar.AStar | src/algorithms.js:84-117 | writes only scores, marks and links; the result is sound and complete and matches the visited flags; a found path costs the finish's `g`, and when every cached `h` is unset or the Manhattan distance to the finish no walk from the start to the finish costs less |
| Greedy.BestIsNearest | src/algorithms.js:125-126 | the node taken is the open node nearest the finish |
| Greedy.PushScored | src/algorithms.js:136-143 | each unvisited neighbour gets its Manhattan distance and a link back and is pushed |
| Greedy.ScoredFacts | src/algorithms.js:137-143 | pushing changes only unvisited neighbours, writing their heuristic and link |
| Greedy.Expand | src/algorithms.js:135-144 | expanding keeps the invariant and every open node scored by its heuristic |
| Greedy.VisitBest | src/algorithms.js:131-144 | visiting returns a path exactly at the finish, and otherwise keeps the invariant |
| Greedy.GreedyPass | src/algorithms.js:124-144 | each pass either returns a sound, complete result or keeps the invariant with a smaller measure |
| Greedy.ScoreStart | src/algorithms.js:121-122 | the start holds its heuristic and is the only open node |
| Greedy.GreedyBestFirst | src/algorithms.js:119-147 | writes only heuristics, marks and links; the result is sound and complete and matches the visited flags |
| Frontier.UnvisitedMembers | src/algorithms.js:184-189 | the pushed cells are exactly the unvisited neighbours |
| Frontier.InitialMarked | src/algorithms.js:176 | before the loop the invariant holds with the start alone on the frontier |
| Frontier.SkipKeeps | src/algorithms.js:179 | skipping a visited node or a wall keeps the invariant |
| Frontier.VisitKeeps | src/algorithms.js:180-181 | marking the taken node visited keeps the invariant |
| Frontier.PushKeeps | src/algorithms.js:183-189 | the pushes keep the invariant |
| Frontier.PushCloses | src/algorithms.js:183-189 | after the pushes every open neighbour of a visited node is visited or on the frontier |
| Frontier.FoundResult | src/algorithms.js:182 | the result at the finish is sound and complete |
| Frontier.ExhaustedResult | src/algorithms.js:191 | an empty frontier means an empty path is sound and complete |
| Dfs.PushNeighbors | src/algorithms.js:184-189 | each unvisited neighbour is linked back and pushed, in order |
| Dfs.PointedBackFacts | src/algorithms.js:184-189 | the pushes change only `previousNode` of unvisited neighbours |
| Dfs.Expand | src/algorithms.js:183-189 | expanding the visited node keeps the invariant and its closure |
| Dfs.VisitTop | src/algorithms.js:180-189 | visiting the popped node returns a path exactly at the finish, and otherwise keeps the invariant |
| Dfs.Dfs | src/algorithms.js:174-192 | changes only marks and links; the result is sound and complete and matches the visited flags |
| Bfs.DiscoverOne | src/algorithms.js:164-168 | an unmarked neighbour is marked, linked back and queued |
| Bfs.DiscoverNeighbors | src/algorithms.js:162-169 | every unmarked neighbour is marked, linked back and queued, in order |
| Bfs.UnvisitedOnce | src/algorithms.js:163-169 | distinct neighbours are queued at most once |
| Bfs.InitialQueued | src/algorithms.js:155-156 | the start alone is queued and marked |
| Bfs.SkipWall | src/algorithms.js:159 | the only wall ever taken off the queue is the start |
| Bfs.VisitFront | src/algorithms.js:158-160 | listing the queue's head keeps the invariant |
| Bfs.DiscoveredFacts | src/algorithms.js:163-169 | the loop marks unmarked neighbours and links them back, changing nothing else |
| Bfs.QueueOnce | src/algorithms.js:167 | the queue never holds a cell twice |
| Bfs.DiscoverStep | src/algorithms.js:162-169 | the marking loop keeps the invariant and closes it over the visited node |
| Bfs.QueuedMarks | src/algorithms.js:156-165 | a node is marked exactly when it is the start, listed, or linked to a listed node |
| Bfs.FoundResult | src/algorithms.js:161 | the result at the finish is sound and complete |
| Bfs.ExhaustedResult | src/algorithms.js:171 | an empty queue means an empty path is sound and complete |
| Bfs.FinishPath | src/algorithms.js:161 | the path read back at the finish is sound and complete, and each of its cells links back to the one before |
| Bfs.InitialLayered | src/algorithms.js:155-156 | the start alone is queued, at depth 0 |
| Bfs.SkipLayered | src/algorithms.js:158-159 | taking the walled start off the queue keeps the layers of the rest |
| Bfs.LayersStep | src/algorithms.js:158-169 | listing the head and queueing its unmarked neighbours one level deeper keeps the queue in nondecreasing depth over two consecutive levels |
| Bfs.LayersOrder | src/algorithms.js:158-167 | the queue without its head, then cells one level below the head, stays in nondecreasing depth over at most two levels |
| Bfs.LayersNeighbours | src/algorithms.js:162-169 | after the loop every open neighbour of a listed node is at most one level deeper |
| Bfs.LayersLinks | src/algorithms.js:164-166 | every `previousNode` link goes one level up |
| Bfs.LayerPrefix | src/algorithms.js:158-169 | along a walk from the start through listed nodes, the `i`th cell is at depth at most `i` |
| Bfs.FewestSteps | src/algorithms.js:158-161 | when the finish is at the head of the queue, every walk from the start to it has at least its depth in steps |
| Bfs.ChainDepth | src/algorithms.js:29-37 | the path read back along the links has exactly one cell per level |
| Bfs.FewestFound | src/algorithms.js:161 | no walk from the start to the finish is shorter than the path read back |
| Bfs.VisitFirst | src/algorithms.js:160-169 | listing the head returns a path exactly at the finish, with no shorter walk to it, and otherwise keeps the invariant and the layers |
| Bfs.BfsPass | src/algorithms.js:158-169 | each pass either returns a sound, complete, fewest-steps result or keeps the invariant and the layers with a smaller measure |
| Bfs.Bfs | src/algorithms.js:153-172 | changes only marks and links; the result is sound and complete; a node is marked exactly when it was reached; no walk from the start to the finish has fewer steps than a returned path |
| Bidirectional.WithLink | src/algorithms.js:215 | setting one side's link leaves the other link and everything else alone |
| Bidirectional.SetLink | src/algorithms.js:203-204 | setting a link changes that node only |
| Bidirectional.Cut | src/algorithms.js:212-219 | the neighbour loop stops at the first neighbour reached by the other side only, or at the end |
| Bidirectional.OutsideMembers | src/algorithms.js:216-217 | a side queues exactly the neighbours it had not reached |
| Bidirectional.Reach | src/algorithms.js:212-219 | a side's neighbour loop links, adds and queues the neighbours before the cut and reports the meeting cell |
| Bidirectional.TreeGrows | src/algorithms.js:215-217 | the neighbour loop keeps a side's links a tree, one rank deeper |
| Bidirectional.HalfGrows | src/algorithms.js:212-219 | a loop run to its end keeps that side's queue, tree and closure |
| Bidirectional.Step | src/algorithms.js:207-234 | one side's turn changes only marks and links, grows its set or shortens its queue, and keeps both sides' state |
| Bidirectional.StepFacts | src/algorithms.js:207-234 | one side's turn keeps the other side and leaves a consistent two-sided state |
| Bidirectional.ApartGrows | src/algorithms.js:213-216 | the cells a side adds were not reached by the other side |
| Bidirectional.FollowNext | src/algorithms.js:246-250 | following `nextNode` gives a repetition-free walk to the finish |
| Bidirectional.JoinPaths | src/algorithms.js:239-252 | two walks joined by one step make a walk |
| Bidirectional.DistinctJoin | src/algorithms.js:239-252 | joining two repetition-free walks through disjoint sets repeats no cell |
| Bidirectional.MergeBidirectionalPath | src/algorithms.js:239-252 | the merged path is a walk from the start to the finish through the two trees, crossing at the meeting cells |
| Bidirectional.ListedFacts | src/algorithms.js:209-224 | every listed cell is marked and open, apart from the start and the finish |
| Bidirectional.ExhaustedSides | src/algorithms.js:206 | when one queue runs empty the open finish is unreachable from the open start |
| Bidirectional.ExhaustedAnswer | src/algorithms.js:236 | an empty queue makes the empty path a correct answer |
| Bidirectional.SetRoots | src/algorithms.js:196-204 | the roots lose their links and each side holds its root alone |
| Bidirectional.InitialSearch | src/algorithms.js:196-204 | the initial state is a consistent two-sided state |
| Bidirectional.StartRound | src/algorithms.js:207-220 | the start side's turn either answers the search or keeps the state with a smaller measure |
| Bidirectional.EndRound | src/algorithms.js:221-234 | the end side's turn either answers the search or keeps the state with a smaller measure |
| Bidirectional.BackMet | src/algorithms.js:214 | the start side stopping at a cell the end side reached is a meeting |
| Bidirectional.AheadMet | src/algorithms.js:228 | the end side stopping at a cell the start side reached is a meeting |
| Bidirectional.Meet | src/algorithms.js:214 | merging at a meeting answers the search |
| Bidirectional.BidirectionalBfs | src/algorithms.js:194-237 | changes only marks and links; the visits start at the start and are marked; a path is a walk from the start to the finish; for distinct ends no cell repeats and an empty path means the finish is unreachable |
| Dispatch.AlgorithmFor | src/algorithms.js:41-51 | each of five labels selects its own search, and every other string selects Dijkstra's |
| Dispatch.SearchFieldsKeepWalls | src/algorithms.js:55-147 | the weighted searches change no wall |
| Dispatch.MarksKeepWalls | src/algorithms.js:153-192 | BFS and DFS change no wall |
| Dispatch.ScoresKeepWalls | src/algorithms.js:84-117 | A* changes no wall |
| Dispatch.LinksKeepWalls | src/algorithms.js:194-237 | the bidirectional search changes no wall |
| Dispatch.RunAlgorithm | src/algorithms.js:41-51 | whichever search runs, no wall changes; a path is a walk from the start to the finish; for distinct ends an empty path means unreachable; no result only from Dijkstra on a walled finish |
| Mazes.Midpoint | src/algorithms.js:291-292 | the cell a jump passes over is adjacent to both ends, halfway between them |
| Mazes.Back | src/algorithms.js:286 | every jump of the table has its reverse in the table |
| Mazes.JumpLattice | src/algorithms.js:288-292 | jumps stay on the start's lattice and the cell passed over is off it |
| Mazes.JumpedLattice | src/algorithms.js:345-347 | a cell two steps along a row or column from a lattice cell is on the lattice |
| Mazes.Shuffled | src/algorithms.js:286 | a shuffle of the direction table is a permutation of it |
| Mazes.ShuffledReaches | src/algorithms.js:286 | every order of the four jumps is the outcome of some shuffle |
| Mazes.WalkStaysIn | src/algorithms.js:375-377 | a walk that starts in a region with no exit never leaves it |
| Mazes.CarvingWalk | src/algorithms.js:294-300 | a tree of carved cells has a walk from the root to each cell |
| Mazes.CarvingConnected | src/algorithms.js:294-300 | a tree of carved cells is connected |
| Mazes.CarvingGrows | src/algorithms.js:294-298 | carving the cell passed over and the landing cell next to a carved cell keeps a tree |
| Mazes.Closer | src/algorithms.js:282-303 | every lattice cell but the origin is one in-grid jump from a lattice cell nearer the origin |
| Mazes.LatticeCovered | src/algorithms.js:282-303 | a set holding the origin and closed under jumps holds the whole lattice inside the grid |
| Mazes.CollectWalls | src/algorithms.js:305-314 | the walls are exactly the in-grid cells not kept open, neither start nor finish, that the coin keeps, listed row by row, each once |
| Division.ResetWeights | src/algorithms.js:261 | every node's weight becomes 1 and nothing else changes |
| Division.ExploringStarts | src/algorithms.js:273-280 | the loop invariant holds with only the start visited and stacked |
| Division.PopKeeps | src/algorithms.js:283 | the popped cell is visited and on the lattice |
| Division.JumpKeeps | src/algorithms.js:294-300 | visiting and carving a landing cell and the cell passed over keeps the invariant |
| Division.Settled | src/algorithms.js:288-302 | once all four jumps have been tried nothing is left pending |
| Division.TryJumps | src/algorithms.js:286-301 | trying the shuffled jumps keeps the invariant, leaves every in-grid jump from the cell visited, and grows the visited set or leaves the stack as it was |
| Division.ComputeWallsRecursive | src/algorithms.js:266-316 | the carved region is a connected region that holds every lattice cell of the start, with a parent tree over it rooted at the start; the walls are exactly the uncarved cells other than the finish, start and a random tenth, row by row |
| Division.GenerateMazeRecursiveDivision | src/algorithms.js:257-264 | resets every weight to 1 and returns the walls above |
| Prims.WallCellAsWritten | src/algorithms.js:375-376 | the cell opened as written is adjacent to the frontier cell but three steps from its path neighbour |
| Prims.CarveAsWritten | src/algorithms.js:372-377 | the as-written carve adds the frontier cell and one neighbour of it, and that neighbour is not next to the path neighbour it was joined through |
| Prims.AsWrittenDisconnects | src/algorithms.js:372-377 | from the path {(0, 0)}, carving (0, 2) as written leaves (0, 2) in the path with no walk to it |
| Prims.Carve | src/algorithms.js:372-377 | the intended carve adds the frontier cell and the cell between it and its path neighbour, the only other cell it adds, which is next to both |
| Prims.CarveConnected | src/algorithms.js:372-377 | the intended carve keeps the path connected |
| Prims.Candidates | src/algorithms.js:334-338 | `addFrontier` accepts exactly the in-grid landing cells off the path |
| Prims.AddFrontiers | src/algorithms.js:345-347 | the frontier grows by the accepted landing cells of the four jumps |
| Prims.NeighborsInPath | src/algorithms.js:357-365 | the collected jumps are exactly those landing inside the grid on the path |
| Prims.GrowingStarts | src/algorithms.js:340-347 | the loop invariant holds with the start alone on the path |
| Prims.RemoveKeeps | src/algorithms.js:351-353 | removing a random frontier entry leaves it pending |
| Prims.SkipKeeps | src/algorithms.js:355 | an entry already on the path is dropped without loss |
| Prims.UnlinkedKeeps | src/algorithms.js:367 | an entry with no path neighbour is dropped without loss |
| Prims.CandidatesOnLattice | src/algorithms.js:378-382 | accepted landing cells are in-grid lattice cells |
| Prims.ReachedGrows | src/algorithms.js:378-382 | every jump from the grown path lands on the path or on the grown frontier |
| Prims.CarveKeeps | src/algorithms.js:367-382 | joining a frontier cell through its path neighbour keeps the invariant |
| Prims.GenerateMazePrims | src/algorithms.js:320-404 | the carved region is connected and holds every lattice cell of the start, with a parent tree over it rooted at the start; the walls are exactly the uncarved cells other than the finish, start and a random tenth, row by row |
| GridSetup.CreateNode | src/components/Grid.jsx:12-22 | a fresh node sits at its cell, open and clean, flagged start or finish exactly at their cells |
| GridSetup.GetInitialGrid | src/components/Grid.jsx:24-34 | a `rows` by `cols` grid of fresh nodes, shaped, clean, wall-free, with start and finish exactly at their cells |
| GridSetup.DefaultGrid | src/components/Grid.jsx:37 | the initial grid is 20 by 50 and holds the start and the finish |
| GridSetup.ResetNode | src/components/Grid.jsx:44-52 | a reset node has clean search state and keeps position, flags, wall and weight |
| GridSetup.ResetTwice | src/components/Grid.jsx:70-76 | resetting is idempotent |
| GridSetup.ResetGrid | src/components/Grid.jsx:70-76 | a new grid of the same shape, each node reset, clean |
| GridSetup.Toggled | src/components/Grid.jsx:202-207 | a click flips the wall of any node but the start and the finish, and changes nothing else |
| GridSetup.ToggleTwice | src/components/Grid.jsx:202-207 | two clicks restore the node |
| GridSetup.GetNewGridWithWallToggled | src/components/Grid.jsx:199-208 | only the clicked node changes, and it is toggled; a grid whose nodes sit at their own cells stays so |

## Left out

- App.jsx, the React components, DOM updates, animation timing and `resetVisuals`' class-name edits are not modelled. They are I/O.
- `Grid.generateMaze` (Grid.jsx lines 113-127), the 30 % random wall maze, is I/O around `getInitialGrid` and a coin, and is not modelled.
- Randomness (`Math.random`) is modelled as oracle parameters rather than a generator. Nothing is claimed about the distribution of mazes.
- `totalDistance` is carried by `Node` and cleared by the resets, but no search reads or writes it, so nothing is stated about it.
- String keys such as `` `${r}-${c}` `` are modelled as cells. Their one oddity, fractional midpoints such as `"4.5-3"`, never arises on the integer jumps of the table.
- JavaScript's sort is specified as any stable sort by the key (`Sorting.SortBy`). Ties among equal keys follow insertion order, as a stable sort requires; nothing more is claimed.
- AStar.AStar: least cost is stated only when every cached `h` is unset or the Manhattan distance to the finish. Line 109 of algorithms.js keeps an `h` left by an earlier run (`h || manhattan`), and neither `Clean` nor the reset maps (Grid.jsx lines 44-52 and 70-76) clear `h`. A stale `h` from a run with another finish could overestimate and cost optimality. On the page the finish never moves and a fresh node has no `h`, so the condition always holds there.
- Every search's contract assumes a reset grid (`Nodes.Clean`: no distances, marks or links). `resetVisuals` rebuilds the grid only when it is not the comparison grid (Grid.jsx lines 69-78), and the comparison grid is reset from the master grid only when the master grid changes (lines 42-55). A second comparison run with no change in between therefore searches a grid still marked by the first run. Results on such a grid are not specified.
- Bidirectional.BidirectionalBfs: repetition-freedom and completeness are only stated when the start is not the finish. With equal ends, `bidirectionalBFS` lists the start twice and returns a three-cell path.
- Prims.NeighborsInPath: states which jumps are collected, not their order. Which one is chosen is random anyway.
- GridSetup.GetNewGridWithWallToggled: is modelled as the in-place update it performs, since `grid.slice()` shares its rows. The returned outer array is not modelled.
- GridSetup.ResetGrid: covers the two reset `map`s (lines 44-52 and 70-76). The React state update `setGrid` is not modelled.
- Neither maze generator is called from the application in this snapshot. They are modelled as the module exports them.

## Findings

| source | as written | input that shows it | evidently intended | confidence | as-written member | corrected member |
|---|---|---|---|---|---|---|
| src/algorithms.js:375-376 | opens `(r - dr/2, c - dc/2)`, where `(dr, dc)` points from the frontier cell to its path neighbour: the cell on the far side of the frontier cell | path {(0, 0)} in a 1 by 3 grid, frontier cell (0, 2) joined through (0, 0): the opened cell is (0, 3), and (0, 2) is carved but no walk from (0, 0) reaches it | open the cell between the frontier cell and its path neighbour, (0, 1) here, so the path stays connected as the comment on line 374 says | high; not executed | Prims.AsWrittenDisconnects | Prims.CarveConnected |

The generator `Prims.GenerateMazePrims` uses the corrected carve (`Prims.Carve`). The as-written reading is kept in `Prims.WallCellAsWritten` and `Prims.CarveAsWritten`.
