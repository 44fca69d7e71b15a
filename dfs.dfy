/** `dfs(grid, startNode, finishNode)` (algorithms.js, lines 174-192): a
    depth-first search with an explicit stack that marks a node when it is
    popped and skips nodes already visited. */
module Dfs {
  import opened Wrappers
  import opened Nodes
  import opened Helpers
  import opened Trees
  import opened Frontier

  /** The node `n` once the push loop has run from `from` over `ns`: an
      unvisited neighbour now points back to `from`. */
  function PointedBack(n: Node, c: Cell, from: Cell, ns: seq<Cell>): Node {
    if c in ns && !n.isVisited then n.(previousNode := Some(from)) else n
  }

  /** Lines 184-189: every unvisited neighbour gets `previousNode` set to the
      current node and is pushed. */
  method PushNeighbors(grid: array2<Node>, currentNode: Cell, neighbors: seq<Cell>, stack: seq<Cell>)
    returns (stack': seq<Cell>)
    modifies grid
    requires Distinct(neighbors) && AllInBounds(grid, neighbors)
    ensures stack' == stack + Unvisited(old(View(grid)), neighbors)
    ensures forall r, c :: 0 <= r < grid.Length0 && 0 <= c < grid.Length1 ==>
      grid[r, c] == PointedBack(old(grid[r, c]), Cell(r, c), currentNode, neighbors)
  {
    ghost var G := View(grid);
    stack' := stack;
    for k := 0 to |neighbors|
      invariant stack' == stack + Unvisited(G, neighbors[..k])
      invariant forall r, c :: 0 <= r < grid.Length0 && 0 <= c < grid.Length1 ==>
        grid[r, c] == PointedBack(old(grid[r, c]), Cell(r, c), currentNode, neighbors[..k])
    {
      var neighbor := neighbors[k];
      assert neighbor !in neighbors[..k];
      assert neighbors[..k + 1][..k] == neighbors[..k];
      var node := grid[neighbor.row, neighbor.col];
      assert node == G[neighbor];
      UnvisitedStep(G, neighbors, k);
      if !node.isVisited {
        grid[neighbor.row, neighbor.col] := node.(previousNode := Some(currentNode));
        stack' := stack' + [neighbor];
        assert stack' == stack + (Unvisited(G, neighbors[..k]) + [neighbor]);
      }
      assert stack' == stack + Unvisited(G, neighbors[..k + 1]);
      forall r, c | 0 <= r < grid.Length0 && 0 <= c < grid.Length1
        ensures grid[r, c] == PointedBack(old(grid[r, c]), Cell(r, c), currentNode, neighbors[..k + 1])
      {
        assert Cell(r, c) in neighbors[..k + 1] <==> Cell(r, c) in neighbors[..k] || Cell(r, c) == neighbor;
      }
    }
    assert neighbors[..|neighbors|] == neighbors;
  }

  /** What the push loop does to each node, read off `PointedBack`: it points
      back to `c` and changes `previousNode` alone. */
  lemma PointedBackFacts(G1: map<Cell, Node>, G2: map<Cell, Node>, c: Cell, ns: seq<Cell>)
    requires forall x :: x in G2 <==> x in G1
    requires forall x :: x in G1 ==> G2[x] == PointedBack(G1[x], x, c, ns)
    ensures PointsBack(G1, G2, c, ns) && MarksOnly(G1, G2)
  {
    forall x | x in G1
      ensures G2[x].isVisited == G1[x].isVisited && G2[x].isWall == G1[x].isWall
      ensures G2[x] == G1[x].(isVisited := G2[x].isVisited, previousNode := G2[x].previousNode)
      ensures G1[x].isVisited || x !in ns ==> G2[x] == G1[x]
      ensures x in ns && !G1[x].isVisited ==> G2[x].previousNode == Some(c)
    {
      var n := G1[x];
      assert G2[x] == PointedBack(n, x, c, ns);
    }
  }

  lemma PopSplit(s: seq<Cell>)
    requires s != []
    ensures forall x :: x in s <==> x in s[..|s| - 1] || x == s[|s| - 1]
  {
    assert s == s[..|s| - 1] + [s[|s| - 1]];
  }

  /** Lines 183-189, after the popped node `currentNode` has been visited:
      push its unvisited open neighbours. */
  method Expand(grid: array2<Node>, startNode: Cell, currentNode: Cell, ghost V: seq<Cell>, stack: seq<Cell>,
                ghost VS: set<Cell>, ghost rank: map<Cell, nat>, ghost F: seq<Cell>)
    returns (stack': seq<Cell>)
    modifies grid
    requires Marked(View(grid), startNode, V, VS + {currentNode}, rank, stack)
    requires Closure(View(grid), VS, F) && (forall x :: x in F <==> x in stack || x == currentNode)
    requires currentNode !in VS && InBounds(grid, currentNode)
    ensures MarksOnly(old(View(grid)), View(grid))
    ensures Marked(View(grid), startNode, V, VS + {currentNode}, rank, stack')
    ensures Closure(View(grid), VS + {currentNode}, stack')
  {
    ghost var G1 := View(grid);
    var neighbors := GetNeighbors(grid, currentNode);
    NeighborsDistinct(grid, currentNode);
    stack' := PushNeighbors(grid, currentNode, neighbors, stack);
    ghost var G2 := View(grid);
    assert forall x :: x in G1 ==> G2[x] == PointedBack(G1[x], x, currentNode, neighbors);
    PointedBackFacts(G1, G2, currentNode, neighbors);
    UnvisitedMembers(G1, neighbors);
    PushKeeps(G1, G2, startNode, V, VS + {currentNode}, rank, stack, currentNode, neighbors, stack');
    PushCloses(G1, G2, VS, F, stack, currentNode, neighbors, stack');
  }

  /** Lines 180-189: visit the popped node `currentNode`; return the path when
      it is the finish, and otherwise push its unvisited open neighbours. */
  method VisitTop(grid: array2<Node>, startNode: Cell, finishNode: Cell, currentNode: Cell,
                  visitedNodesInOrder: seq<Cell>, stack: seq<Cell>, ghost VS: set<Cell>, ghost rank: map<Cell, nat>,
                  ghost F: seq<Cell>)
    returns (visited: seq<Cell>, stack': seq<Cell>, path: Option<seq<Cell>>)
    modifies grid
    requires Marked(View(grid), startNode, visitedNodesInOrder, VS, rank, F) && Closure(View(grid), VS, F)
    requires forall x :: x in F <==> x in stack || x == currentNode
    requires InBounds(grid, currentNode) && !At(grid, currentNode).isVisited && !At(grid, currentNode).isWall
    ensures visited == visitedNodesInOrder + [currentNode]
    ensures MarksOnly(old(View(grid)), View(grid))
    ensures path.Some? ==> (currentNode == finishNode
      && SoundResult(grid, startNode, finishNode, SearchResult(visited, path.value))
      && CompleteResult(grid, startNode, finishNode, SearchResult(visited, path.value))
      && VisitedExactly(grid, visited))
    ensures path.None? ==> (currentNode != finishNode
      && Marked(View(grid), startNode, visited, VS + {currentNode}, rank[currentNode := |visitedNodesInOrder|], stack')
      && Closure(View(grid), VS + {currentNode}, stack'))
  {
    ghost var G := View(grid);
    MarkVisited(grid, currentNode);
    ghost var G1 := View(grid);
    assert MarksOnly(G, G1);
    VisitKeeps(G, G1, startNode, visitedNodesInOrder, VS, rank, F, stack, currentNode);
    visited := visitedNodesInOrder + [currentNode];
    ghost var VS', rank' := VS + {currentNode}, rank[currentNode := |visitedNodesInOrder|];
    if currentNode == finishNode {
      var p := TracePath(grid, startNode, finishNode, VS', rank');
      FoundResult(grid, startNode, finishNode, visited, VS', rank', stack, p);
      return visited, stack, Some(p);
    }
    stack' := Expand(grid, startNode, currentNode, visited, stack, VS, rank', F);
    MarksOnlyTrans(G, G1, View(grid));
    path := None;
  }

  method Dfs(grid: array2<Node>, startNode: Cell, finishNode: Cell) returns (result: SearchResult)
    modifies grid
    requires InBounds(grid, startNode) && InBounds(grid, finishNode) && Clean(grid) && Shaped(grid)
    ensures MarksOnly(old(View(grid)), View(grid))
    ensures SoundResult(grid, startNode, finishNode, result) && CompleteResult(grid, startNode, finishNode, result)
    ensures VisitedExactly(grid, result.visitedNodesInOrder)
    ensures !At(grid, startNode).isWall ==> |result.visitedNodesInOrder| > 0
  {
    ghost var G0 := View(grid);
    var visitedNodesInOrder: seq<Cell> := [];
    var stack := [startNode];
    ghost var VS: set<Cell> := {};
    ghost var rank: map<Cell, nat> := map[];
    InitialMarked(G0, startNode);
    while |stack| > 0
      invariant MarksOnly(G0, View(grid))
      invariant Marked(View(grid), startNode, visitedNodesInOrder, VS, rank, stack)
      invariant Closure(View(grid), VS, stack)
      invariant finishNode !in VS && VS <= AllCells(grid)
      decreases |AllCells(grid) - VS|, |stack|
    {
      ghost var F := stack;
      PopSplit(stack);
      var currentNode := stack[|stack| - 1];
      stack := stack[..|stack| - 1];
      var node := At(grid, currentNode);
      if node.isVisited || node.isWall {
        SkipKeeps(View(grid), startNode, visitedNodesInOrder, VS, rank, F, stack, currentNode);
        continue;
      }
      MissingShrinks(AllCells(grid), VS, currentNode);
      ghost var G := View(grid);
      ghost var VS', rank' := VS + {currentNode}, rank[currentNode := |visitedNodesInOrder|];
      var path;
      visitedNodesInOrder, stack, path := VisitTop(grid, startNode, finishNode, currentNode, visitedNodesInOrder, stack, VS, rank, F);
      MarksOnlyTrans(G0, G, View(grid));
      if path.Some? {
        return SearchResult(visitedNodesInOrder, path.value);
      }
      VS, rank := VS', rank';
    }
    ExhaustedResult(grid, startNode, finishNode, visitedNodesInOrder, VS, rank);
    return SearchResult(visitedNodesInOrder, []);
  }
}
