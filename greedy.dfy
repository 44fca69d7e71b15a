/** `greedyBestFirst(grid, startNode, finishNode)` (algorithms.js, lines
    119-147): a best-first search that always takes the open node nearest the
    finish by Manhattan distance, stored in the node's `distance` field. It
    marks a node when it takes it and skips nodes already visited, as `dfs`
    does, so it keeps the same invariant on its open list. */
module Greedy {
  import opened Wrappers
  import opened Nodes
  import opened Helpers
  import opened Trees
  import opened Sorting
  import opened Frontier

  /** Every node whose `distance` changed from `G0` to `G1` now holds its
      Manhattan distance to the finish: the search writes no other
      distance. */
  ghost predicate HeuristicOnly(G0: map<Cell, Node>, G1: map<Cell, Node>, finish: Cell) {
    forall c :: c in G0 && c in G1 && G1[c].distance != G0[c].distance ==>
      G1[c].distance == Fin(ManhattanDistance(c, finish))
  }

  lemma HeuristicOnlyTrans(G0: map<Cell, Node>, G1: map<Cell, Node>, G2: map<Cell, Node>, finish: Cell)
    requires HeuristicOnly(G0, G1, finish) && HeuristicOnly(G1, G2, finish)
    requires forall c :: c in G0 ==> c in G1
    ensures HeuristicOnly(G0, G2, finish)
  {
  }

  /** Every cell on the open list is a grid cell whose `distance` is its
      Manhattan distance to the finish, so sorting by `distance` sorts by
      that heuristic. */
  ghost predicate OpenScored(G: map<Cell, Node>, finish: Cell, F: seq<Cell>) {
    forall x :: x in F ==> x in G && G[x].distance == Fin(ManhattanDistance(x, finish))
  }

  /** The node `n` once the push loop has run from `from` over `ns`: an
      unvisited neighbour now holds its Manhattan distance to the finish and
      points back to `from`. */
  function Scored(n: Node, c: Cell, from: Cell, finish: Cell, ns: seq<Cell>): Node {
    if c in ns && !n.isVisited then n.(distance := Fin(ManhattanDistance(c, finish)), previousNode := Some(from))
    else n
  }

  /** The node taken is the open node nearest the finish. */
  lemma BestIsNearest(G: map<Cell, Node>, finish: Cell, openSet: seq<Cell>, best: Cell)
    requires OpenScored(G, finish, openSet) && best in openSet
    requires forall x :: x in openSet ==> DistLe(G[best].distance, G[x].distance)
    ensures forall x :: x in openSet ==> ManhattanDistance(best, finish) <= ManhattanDistance(x, finish)
  {
    forall x | x in openSet ensures ManhattanDistance(best, finish) <= ManhattanDistance(x, finish) {
      assert DistLe(G[best].distance, G[x].distance);
    }
  }

  /** Lines 136-143: every unvisited neighbour gets its Manhattan distance to
      the finish and `previousNode` set to the current node, and is pushed. */
  method PushScored(grid: array2<Node>, currentNode: Cell, finishNode: Cell, neighbors: seq<Cell>, openSet: seq<Cell>)
    returns (openSet': seq<Cell>)
    modifies grid
    requires Distinct(neighbors) && AllInBounds(grid, neighbors)
    ensures openSet' == openSet + Unvisited(old(View(grid)), neighbors)
    ensures forall r, c :: 0 <= r < grid.Length0 && 0 <= c < grid.Length1 ==>
      grid[r, c] == Scored(old(grid[r, c]), Cell(r, c), currentNode, finishNode, neighbors)
  {
    ghost var G := View(grid);
    openSet' := openSet;
    for k := 0 to |neighbors|
      invariant openSet' == openSet + Unvisited(G, neighbors[..k])
      invariant forall r, c :: 0 <= r < grid.Length0 && 0 <= c < grid.Length1 ==>
        grid[r, c] == Scored(old(grid[r, c]), Cell(r, c), currentNode, finishNode, neighbors[..k])
    {
      var neighbor := neighbors[k];
      assert neighbor !in neighbors[..k];
      assert neighbors[..k + 1][..k] == neighbors[..k];
      var node := grid[neighbor.row, neighbor.col];
      assert node == G[neighbor];
      UnvisitedStep(G, neighbors, k);
      if !node.isVisited {
        grid[neighbor.row, neighbor.col] :=
          node.(distance := Fin(ManhattanDistance(neighbor, finishNode)), previousNode := Some(currentNode));
        openSet' := openSet' + [neighbor];
        assert openSet' == openSet + (Unvisited(G, neighbors[..k]) + [neighbor]);
      }
      assert openSet' == openSet + Unvisited(G, neighbors[..k + 1]);
      forall r, c | 0 <= r < grid.Length0 && 0 <= c < grid.Length1
        ensures grid[r, c] == Scored(old(grid[r, c]), Cell(r, c), currentNode, finishNode, neighbors[..k + 1])
      {
        assert Cell(r, c) in neighbors[..k + 1] <==> Cell(r, c) in neighbors[..k] || Cell(r, c) == neighbor;
      }
    }
    assert neighbors[..|neighbors|] == neighbors;
  }

  /** What the push loop does to each node, read off `Scored`. */
  lemma ScoredFacts(G1: map<Cell, Node>, G2: map<Cell, Node>, c: Cell, finish: Cell, ns: seq<Cell>)
    requires forall x :: x in G2 <==> x in G1
    requires forall x :: x in G1 ==> G2[x] == Scored(G1[x], x, c, finish, ns)
    ensures PointsBack(G1, G2, c, ns) && KeepsOtherFields(G1, G2) && HeuristicOnly(G1, G2, finish)
  {
    forall x | x in G1
      ensures G2[x].isVisited == G1[x].isVisited && G2[x].isWall == G1[x].isWall
      ensures OnlySearchFields(G1[x], G2[x])
      ensures G1[x].isVisited || x !in ns ==> G2[x] == G1[x]
      ensures x in ns && !G1[x].isVisited ==> G2[x].previousNode == Some(c)
      ensures G2[x].distance != G1[x].distance ==> G2[x].distance == Fin(ManhattanDistance(x, finish))
    {
      var n := G1[x];
      assert G2[x] == Scored(n, x, c, finish, ns);
    }
  }

  /** Lines 135-144, after the node `currentNode` has been visited: push its
      unvisited open neighbours, each holding its distance to the finish. */
  method Expand(grid: array2<Node>, startNode: Cell, finishNode: Cell, currentNode: Cell, ghost V: seq<Cell>,
                openSet: seq<Cell>, ghost VS: set<Cell>, ghost rank: map<Cell, nat>, ghost F: seq<Cell>)
    returns (openSet': seq<Cell>)
    modifies grid
    requires Marked(View(grid), startNode, V, VS + {currentNode}, rank, openSet)
    requires Closure(View(grid), VS, F) && (forall x :: x in F <==> x in openSet || x == currentNode)
    requires OpenScored(View(grid), finishNode, openSet)
    requires currentNode !in VS && InBounds(grid, currentNode)
    ensures KeepsOtherFields(old(View(grid)), View(grid)) && HeuristicOnly(old(View(grid)), View(grid), finishNode)
    ensures Marked(View(grid), startNode, V, VS + {currentNode}, rank, openSet')
    ensures Closure(View(grid), VS + {currentNode}, openSet')
    ensures OpenScored(View(grid), finishNode, openSet')
  {
    ghost var G1 := View(grid);
    var neighbors := GetNeighbors(grid, currentNode);
    NeighborsDistinct(grid, currentNode);
    openSet' := PushScored(grid, currentNode, finishNode, neighbors, openSet);
    ghost var G2 := View(grid);
    assert forall x :: x in G1 ==> G2[x] == Scored(G1[x], x, currentNode, finishNode, neighbors);
    ScoredFacts(G1, G2, currentNode, finishNode, neighbors);
    UnvisitedMembers(G1, neighbors);
    PushKeeps(G1, G2, startNode, V, VS + {currentNode}, rank, openSet, currentNode, neighbors, openSet');
    PushCloses(G1, G2, VS, F, openSet, currentNode, neighbors, openSet');
  }

  /** Lines 131-144: visit the node `currentNode` just taken; return the path
      when it is the finish, and otherwise push its unvisited open
      neighbours. */
  method VisitBest(grid: array2<Node>, startNode: Cell, finishNode: Cell, currentNode: Cell,
                   visitedNodesInOrder: seq<Cell>, openSet: seq<Cell>, ghost VS: set<Cell>, ghost rank: map<Cell, nat>,
                   ghost F: seq<Cell>)
    returns (visited: seq<Cell>, openSet': seq<Cell>, path: Option<seq<Cell>>)
    modifies grid
    requires Marked(View(grid), startNode, visitedNodesInOrder, VS, rank, F) && Closure(View(grid), VS, F)
    requires OpenScored(View(grid), finishNode, F)
    requires forall x :: x in F <==> x in openSet || x == currentNode
    requires InBounds(grid, currentNode) && !At(grid, currentNode).isVisited && !At(grid, currentNode).isWall
    ensures visited == visitedNodesInOrder + [currentNode]
    ensures KeepsOtherFields(old(View(grid)), View(grid)) && HeuristicOnly(old(View(grid)), View(grid), finishNode)
    ensures path.Some? ==> (currentNode == finishNode
      && SoundResult(grid, startNode, finishNode, SearchResult(visited, path.value))
      && CompleteResult(grid, startNode, finishNode, SearchResult(visited, path.value))
      && VisitedExactly(grid, visited))
    ensures path.None? ==> (currentNode != finishNode
      && Marked(View(grid), startNode, visited, VS + {currentNode}, rank[currentNode := |visitedNodesInOrder|], openSet')
      && Closure(View(grid), VS + {currentNode}, openSet')
      && OpenScored(View(grid), finishNode, openSet'))
  {
    ghost var G := View(grid);
    MarkVisited(grid, currentNode);
    ghost var G1 := View(grid);
    assert KeepsOtherFields(G, G1) && HeuristicOnly(G, G1, finishNode);
    VisitKeeps(G, G1, startNode, visitedNodesInOrder, VS, rank, F, openSet, currentNode);
    visited := visitedNodesInOrder + [currentNode];
    ghost var VS', rank' := VS + {currentNode}, rank[currentNode := |visitedNodesInOrder|];
    if currentNode == finishNode {
      var p := TracePath(grid, startNode, finishNode, VS', rank');
      FoundResult(grid, startNode, finishNode, visited, VS', rank', openSet, p);
      return visited, openSet, Some(p);
    }
    assert OpenScored(G1, finishNode, openSet);
    openSet' := Expand(grid, startNode, finishNode, currentNode, visited, openSet, VS, rank', F);
    KeepsOtherFieldsTrans(G, G1, View(grid));
    HeuristicOnlyTrans(G, G1, View(grid), finishNode);
    path := None;
  }

  /** Lines 124-144, one pass of the main loop: take the open node nearest
      the finish, skip it when it is a wall or already visited, and visit it
      otherwise. Each pass visits a new cell or shortens the open list. */
  method GreedyPass(grid: array2<Node>, startNode: Cell, finishNode: Cell, openSet: seq<Cell>,
                    visitedNodesInOrder: seq<Cell>, ghost VS: set<Cell>, ghost rank: map<Cell, nat>)
    returns (openSet': seq<Cell>, visited: seq<Cell>, path: Option<seq<Cell>>, ghost VS': set<Cell>,
             ghost rank': map<Cell, nat>)
    modifies grid
    requires openSet != []
    requires Marked(View(grid), startNode, visitedNodesInOrder, VS, rank, openSet)
    requires Closure(View(grid), VS, openSet) && OpenScored(View(grid), finishNode, openSet)
    requires finishNode !in VS && VS <= AllCells(grid)
    ensures KeepsOtherFields(old(View(grid)), View(grid)) && HeuristicOnly(old(View(grid)), View(grid), finishNode)
    ensures path.Some? ==> (SoundResult(grid, startNode, finishNode, SearchResult(visited, path.value))
      && CompleteResult(grid, startNode, finishNode, SearchResult(visited, path.value))
      && VisitedExactly(grid, visited) && |visited| > 0)
    ensures path.None? ==> (Marked(View(grid), startNode, visited, VS', rank', openSet')
      && Closure(View(grid), VS', openSet') && OpenScored(View(grid), finishNode, openSet')
      && finishNode !in VS' && VS' <= AllCells(grid))
    ensures path.None? ==> (|AllCells(grid) - VS'| < |AllCells(grid) - VS|
      || (VS' == VS && |openSet'| < |openSet|))
  {
    var currentNode;
    currentNode, openSet' := TakeFirst(grid, ByDistance, openSet);
    MultisetMembers(openSet, openSet', currentNode);
    BestIsNearest(View(grid), finishNode, openSet, currentNode);
    visited, VS', rank' := visitedNodesInOrder, VS, rank;
    var node := At(grid, currentNode);
    if node.isWall || node.isVisited {
      SkipKeeps(View(grid), startNode, visitedNodesInOrder, VS, rank, openSet, openSet', currentNode);
      return openSet', visited, None, VS', rank';
    }
    MissingShrinks(AllCells(grid), VS, currentNode);
    VS', rank' := VS + {currentNode}, rank[currentNode := |visitedNodesInOrder|];
    visited, openSet', path :=
      VisitBest(grid, startNode, finishNode, currentNode, visitedNodesInOrder, openSet', VS, rank, openSet);
  }

  /** Lines 121-122: the start holds its Manhattan distance to the finish
      and is the only open node. */
  method ScoreStart(grid: array2<Node>, startNode: Cell, finishNode: Cell) returns (openSet: seq<Cell>)
    modifies grid
    requires InBounds(grid, startNode) && Clean(grid)
    ensures openSet == [startNode]
    ensures KeepsOtherFields(old(View(grid)), View(grid)) && HeuristicOnly(old(View(grid)), View(grid), finishNode)
    ensures Marked(View(grid), startNode, [], {}, map[], openSet) && Closure(View(grid), {}, openSet)
    ensures OpenScored(View(grid), finishNode, openSet)
  {
    ghost var G0 := View(grid);
    grid[startNode.row, startNode.col] :=
      grid[startNode.row, startNode.col].(distance := Fin(ManhattanDistance(startNode, finishNode)));
    openSet := [startNode];
    assert View(grid) == G0[startNode := G0[startNode].(distance := Fin(ManhattanDistance(startNode, finishNode)))];
    InitialMarked(View(grid), startNode);
  }

  method GreedyBestFirst(grid: array2<Node>, startNode: Cell, finishNode: Cell) returns (result: SearchResult)
    modifies grid
    requires InBounds(grid, startNode) && InBounds(grid, finishNode) && Clean(grid) && Shaped(grid)
    ensures KeepsOtherFields(old(View(grid)), View(grid)) && HeuristicOnly(old(View(grid)), View(grid), finishNode)
    ensures SoundResult(grid, startNode, finishNode, result) && CompleteResult(grid, startNode, finishNode, result)
    ensures VisitedExactly(grid, result.visitedNodesInOrder)
    ensures !At(grid, startNode).isWall ==> |result.visitedNodesInOrder| > 0
  {
    ghost var G0 := View(grid);
    var visitedNodesInOrder: seq<Cell> := [];
    var openSet := ScoreStart(grid, startNode, finishNode);
    ghost var VS: set<Cell> := {};
    ghost var rank: map<Cell, nat> := map[];
    while |openSet| > 0
      invariant KeepsOtherFields(G0, View(grid)) && HeuristicOnly(G0, View(grid), finishNode)
      invariant Marked(View(grid), startNode, visitedNodesInOrder, VS, rank, openSet)
      invariant Closure(View(grid), VS, openSet) && OpenScored(View(grid), finishNode, openSet)
      invariant finishNode !in VS && VS <= AllCells(grid)
      decreases |AllCells(grid) - VS|, |openSet|
    {
      ghost var G := View(grid);
      var path;
      openSet, visitedNodesInOrder, path, VS, rank :=
        GreedyPass(grid, startNode, finishNode, openSet, visitedNodesInOrder, VS, rank);
      KeepsOtherFieldsTrans(G0, G, View(grid));
      HeuristicOnlyTrans(G0, G, View(grid), finishNode);
      if path.Some? {
        return SearchResult(visitedNodesInOrder, path.value);
      }
    }
    ExhaustedResult(grid, startNode, finishNode, visitedNodesInOrder, VS, rank);
    return SearchResult(visitedNodesInOrder, []);
  }
}
