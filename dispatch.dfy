/** `runAlgorithm(grid, startNode, finishNode, algoType)` (algorithms.js,
    lines 41-51): pick a search by its name and run it; any other name runs
    Dijkstra's algorithm. */
module Dispatch {
  import opened Wrappers
  import opened Nodes
  import opened Helpers
  import Dijkstra
  import AStar
  import Greedy
  import Bfs
  import Dfs
  import Bidirectional

  /** The six searches the switch can run. */
  datatype Algorithm = DijkstraSearch | AStarSearch | BfsSearch | DfsSearch | GreedySearch | BidirectionalSearch

  /** The search the switch of lines 42-50 runs for `algoType`: each of the
      five labels other than `'dijkstra'` selects its own search, and every
      other string, `'dijkstra'` among them, selects Dijkstra's. */
  function AlgorithmFor(algoType: string): (a: Algorithm)
    ensures a == AStarSearch <==> algoType == "astar"
    ensures a == BfsSearch <==> algoType == "bfs"
    ensures a == DfsSearch <==> algoType == "dfs"
    ensures a == GreedySearch <==> algoType == "greedy"
    ensures a == BidirectionalSearch <==> algoType == "bidirectional"
    ensures a == DijkstraSearch <==> algoType !in {"astar", "bfs", "dfs", "greedy", "bidirectional"}
  {
    match algoType
    case "dijkstra" => DijkstraSearch
    case "astar" => AStarSearch
    case "bfs" => BfsSearch
    case "dfs" => DfsSearch
    case "greedy" => GreedySearch
    case "bidirectional" => BidirectionalSearch
    case _ => DijkstraSearch
  }

  /** No wall was added or removed between `G0` and `G1`. */
  ghost predicate WallsKept(G0: map<Cell, Node>, G1: map<Cell, Node>) {
    forall c :: c in G0 ==> c in G1 && G1[c].isWall == G0[c].isWall
  }

  lemma SearchFieldsKeepWalls(G0: map<Cell, Node>, G1: map<Cell, Node>)
    requires KeepsOtherFields(G0, G1)
    ensures WallsKept(G0, G1)
  {
    forall c | c in G0 ensures c in G1 && G1[c].isWall == G0[c].isWall {
      assert OnlySearchFields(G0[c], G1[c]);
    }
  }

  lemma MarksKeepWalls(G0: map<Cell, Node>, G1: map<Cell, Node>)
    requires MarksOnly(G0, G1)
    ensures WallsKept(G0, G1)
  {
    forall c | c in G0 ensures c in G1 && G1[c].isWall == G0[c].isWall {
      assert G1[c] == G0[c].(isVisited := G1[c].isVisited, previousNode := G1[c].previousNode);
    }
  }

  lemma ScoresKeepWalls(G0: map<Cell, Node>, G1: map<Cell, Node>)
    requires AStar.ScoresOnly(G0, G1)
    ensures WallsKept(G0, G1)
  {
    forall c | c in G0 ensures c in G1 && G1[c].isWall == G0[c].isWall {
      assert G1[c] == G0[c].(g := G1[c].g, h := G1[c].h, f := G1[c].f, isVisited := G1[c].isVisited,
                             previousNode := G1[c].previousNode);
    }
  }

  lemma LinksKeepWalls(G0: map<Cell, Node>, G1: map<Cell, Node>)
    requires Bidirectional.LinksOnly(G0, G1)
    ensures WallsKept(G0, G1)
  {
    forall c | c in G0 ensures c in G1 && G1[c].isWall == G0[c].isWall {
      assert Bidirectional.Bare(G1[c]) == Bidirectional.Bare(G0[c]);
    }
  }

  /** Whichever search runs, no wall changes; a non-empty path is a walk from
      the start to the finish through open cells; unless the start is the
      finish, an empty path means the open finish is unreachable from the
      open start; and only Dijkstra's search, on a walled-in finish, returns
      no result at all. */
  method RunAlgorithm(grid: array2<Node>, startNode: Cell, finishNode: Cell, algoType: string)
    returns (result: Option<SearchResult>)
    modifies grid
    requires InBounds(grid, startNode) && InBounds(grid, finishNode) && Clean(grid) && Shaped(grid)
    ensures WallsKept(old(View(grid)), View(grid))
    ensures result.Some? && result.value.path != [] ==> IsPath(grid, result.value.path, startNode, finishNode)
    ensures result.Some? && startNode != finishNode ==> CompleteResult(grid, startNode, finishNode, result.value)
    ensures result.None? ==> AlgorithmFor(algoType) == DijkstraSearch && At(grid, finishNode).isWall
  {
    ghost var G0 := View(grid);
    match AlgorithmFor(algoType)
    case DijkstraSearch =>
      result := Dijkstra.Dijkstra(grid, startNode, finishNode);
      SearchFieldsKeepWalls(G0, View(grid));
    case AStarSearch =>
      var r := AStar.AStar(grid, startNode, finishNode);
      ScoresKeepWalls(G0, View(grid));
      result := Some(r);
    case BfsSearch =>
      var r := Bfs.Bfs(grid, startNode, finishNode);
      MarksKeepWalls(G0, View(grid));
      result := Some(r);
    case DfsSearch =>
      var r := Dfs.Dfs(grid, startNode, finishNode);
      MarksKeepWalls(G0, View(grid));
      result := Some(r);
    case GreedySearch =>
      var r := Greedy.GreedyBestFirst(grid, startNode, finishNode);
      SearchFieldsKeepWalls(G0, View(grid));
      result := Some(r);
    case BidirectionalSearch =>
      var r := Bidirectional.BidirectionalBfs(grid, startNode, finishNode);
      LinksKeepWalls(G0, View(grid));
      result := Some(r);
  }
}
