/** The helpers every search shares (algorithms.js, lines 3-37): the neighbour
    function, the Manhattan heuristic, the row-major list of all nodes and the
    reconstruction of a path from `previousNode` links; plus the notion of a
    path through the grid that the searches are proved against. */
module Helpers {
  import opened Wrappers
  import opened Nodes

  function Abs(x: int): nat {
    if x < 0 then -x else x
  }

  /** `manhattanDistance(nodeA, nodeB)`. */
  function ManhattanDistance(a: Cell, b: Cell): (d: nat)
    ensures d == 0 <==> a == b
  {
    Abs(a.row - b.row) + Abs(a.col - b.col)
  }

  lemma ManhattanTriangle(a: Cell, b: Cell, c: Cell)
    ensures ManhattanDistance(a, c) <= ManhattanDistance(a, b) + ManhattanDistance(b, c)
  {
  }

  /** Orthogonal neighbours: cells one step apart. */
  predicate Adjacent(a: Cell, b: Cell) {
    ManhattanDistance(a, b) == 1
  }

  /** Where `n` lies as seen from `c`: 0 above, 1 below, 2 left, 3 right. */
  function Direction(c: Cell, n: Cell): nat {
    if n.row < c.row then 0 else if n.row > c.row then 1 else if n.col < c.col then 2 else 3
  }

  /** Appending to a list in two steps or in one. */
  lemma AppendAssoc(a: seq<Cell>, b: seq<Cell>, c: seq<Cell>)
    ensures a + (b + c) == (a + b) + c
  {
  }

  /** Keeps the cells of `s` that are not walls, in their order. */
  function NonWalls(grid: array2<Node>, s: seq<Cell>): (r: seq<Cell>)
    reads grid
    requires forall i :: 0 <= i < |s| ==> InBounds(grid, s[i])
    ensures |r| <= |s|
    ensures forall x :: x in r <==> x in s && !At(grid, x).isWall
  {
    if s == [] then []
    else (if At(grid, s[0]).isWall then [] else [s[0]]) + NonWalls(grid, s[1..])
  }

  /** The cells of `s` lie in strictly increasing direction from `c`. */
  predicate InDirectionOrder(c: Cell, s: seq<Cell>) {
    forall i, j :: 0 <= i < j < |s| ==> Direction(c, s[i]) < Direction(c, s[j])
  }

  lemma {:induction false} NonWallsAppend(grid: array2<Node>, a: seq<Cell>, b: seq<Cell>)
    requires forall i :: 0 <= i < |a| ==> InBounds(grid, a[i])
    requires forall i :: 0 <= i < |b| ==> InBounds(grid, b[i])
    ensures NonWalls(grid, a + b) == NonWalls(grid, a) + NonWalls(grid, b)
  {
    if a != [] {
      assert (a + b)[1..] == a[1..] + b;
      NonWallsAppend(grid, a[1..], b);
    } else {
      assert a + b == b;
    }
  }

  /** Two lists in direction order, the first wholly before the second, join
      into one. */
  lemma InDirectionOrderJoin(c: Cell, a: seq<Cell>, b: seq<Cell>)
    requires InDirectionOrder(c, a) && InDirectionOrder(c, b)
    requires forall x, y :: x in a && y in b ==> Direction(c, x) < Direction(c, y)
    ensures InDirectionOrder(c, a + b)
  {
    var r := a + b;
    forall i, j | 0 <= i < j < |r| ensures Direction(c, r[i]) < Direction(c, r[j]) {
      if j < |a| {
        assert r[i] == a[i] && r[j] == a[j];
      } else if i < |a| {
        assert r[i] == a[i] && r[j] == b[j - |a|];
        assert r[i] in a && r[j] in b;
      } else {
        assert r[i] == b[i - |a|] && r[j] == b[j - |a|];
      }
    }
  }

  /** The cells `getNeighbors` pushes before filtering: up, down, left and
      right of `c`, each only when it lies inside the grid. */
  function Pushed(grid: array2<Node>, c: Cell): seq<Cell> {
    (if c.row > 0 then [Cell(c.row - 1, c.col)] else []) +
    (if c.row < grid.Length0 - 1 then [Cell(c.row + 1, c.col)] else []) +
    (if c.col > 0 then [Cell(c.row, c.col - 1)] else []) +
    (if c.col < grid.Length1 - 1 then [Cell(c.row, c.col + 1)] else [])
  }

  /** The pushed cells are exactly the in-grid cells one step from `c`. */
  lemma PushedMembers(grid: array2<Node>, c: Cell)
    requires InBounds(grid, c)
    ensures forall n :: n in Pushed(grid, c) <==> InBounds(grid, n) && Adjacent(c, n)
  {
  }

  /** Filtering the pushed cells keeps them in direction order. */
  lemma PushedInOrder(grid: array2<Node>, c: Cell)
    requires InBounds(grid, c)
    requires forall i :: 0 <= i < |Pushed(grid, c)| ==> InBounds(grid, Pushed(grid, c)[i])
    ensures InDirectionOrder(c, NonWalls(grid, Pushed(grid, c)))
  {
    var up := if c.row > 0 then [Cell(c.row - 1, c.col)] else [];
    var down := if c.row < grid.Length0 - 1 then [Cell(c.row + 1, c.col)] else [];
    var left := if c.col > 0 then [Cell(c.row, c.col - 1)] else [];
    var right := if c.col < grid.Length1 - 1 then [Cell(c.row, c.col + 1)] else [];
    assert Pushed(grid, c) == up + down + left + right;
    NonWallsAppend4(grid, up, down, left, right);
    NonWallsPiece(grid, up);
    NonWallsPiece(grid, down);
    NonWallsPiece(grid, left);
    NonWallsPiece(grid, right);
    FourPiecesInOrder(c, NonWalls(grid, up), NonWalls(grid, down), NonWalls(grid, left), NonWalls(grid, right));
  }

  /** Filtering at most one cell keeps it or drops it. */
  lemma NonWallsPiece(grid: array2<Node>, p: seq<Cell>)
    requires |p| <= 1 && forall i :: 0 <= i < |p| ==> InBounds(grid, p[i])
    ensures NonWalls(grid, p) == [] || NonWalls(grid, p) == p
  {
    if p != [] {
      assert p[1..] == [];
    }
  }

  /** `getNeighbors(node, grid)`: the cells up, down, left and right of `c`
      that lie inside the grid, in that order, with the walls filtered out. */
  function GetNeighbors(grid: array2<Node>, c: Cell): (ns: seq<Cell>)
    reads grid
    requires InBounds(grid, c)
    ensures |ns| <= 4
    ensures forall n :: n in ns <==> InBounds(grid, n) && Adjacent(c, n) && !At(grid, n).isWall
    ensures InDirectionOrder(c, ns)
  {
    PushedMembers(grid, c);
    PushedInOrder(grid, c);
    NonWalls(grid, Pushed(grid, c))
  }

  /** Filtering the four pushed pieces is filtering each piece. */
  lemma NonWallsAppend4(grid: array2<Node>, a: seq<Cell>, b: seq<Cell>, c: seq<Cell>, d: seq<Cell>)
    requires forall i :: 0 <= i < |a| ==> InBounds(grid, a[i])
    requires forall i :: 0 <= i < |b| ==> InBounds(grid, b[i])
    requires forall i :: 0 <= i < |c| ==> InBounds(grid, c[i])
    requires forall i :: 0 <= i < |d| ==> InBounds(grid, d[i])
    ensures NonWalls(grid, a + b + c + d) == NonWalls(grid, a) + NonWalls(grid, b) + NonWalls(grid, c) + NonWalls(grid, d)
  {
    NonWallsAppend(grid, a, b);
    NonWallsAppend(grid, a + b, c);
    NonWallsAppend(grid, a + b + c, d);
  }

  /** At most one cell above, below, left and right, joined in that order,
      lie in direction order. */
  lemma FourPiecesInOrder(c: Cell, u: seq<Cell>, d: seq<Cell>, l: seq<Cell>, r: seq<Cell>)
    requires u == [] || u == [Cell(c.row - 1, c.col)]
    requires d == [] || d == [Cell(c.row + 1, c.col)]
    requires l == [] || l == [Cell(c.row, c.col - 1)]
    requires r == [] || r == [Cell(c.row, c.col + 1)]
    ensures InDirectionOrder(c, u + d + l + r)
  {
    InDirectionOrderJoin(c, u, d);
    InDirectionOrderJoin(c, u + d, l);
    InDirectionOrderJoin(c, u + d + l, r);
  }

  /** Distinctness follows from the strict direction order. */
  lemma NeighborsDistinct(grid: array2<Node>, c: Cell)
    requires InBounds(grid, c)
    ensures Distinct(GetNeighbors(grid, c))
  {
  }

  /** Cell `a` comes before cell `b` in a row-by-row scan. */
  predicate RowMajorBefore(a: Cell, b: Cell) {
    a.row < b.row || (a.row == b.row && a.col < b.col)
  }

  /** `getAllNodes(grid)`: every node, row by row. */
  method GetAllNodes(grid: array2<Node>) returns (nodes: seq<Cell>)
    ensures |nodes| == grid.Length0 * grid.Length1
    ensures forall i :: 0 <= i < |nodes| ==> InBounds(grid, nodes[i])
    ensures forall c :: InBounds(grid, c) ==> c in nodes
    ensures forall i, j :: 0 <= i < j < |nodes| ==> RowMajorBefore(nodes[i], nodes[j])
  {
    nodes := [];
    for r := 0 to grid.Length0
      invariant |nodes| == r * grid.Length1
      invariant forall i :: 0 <= i < |nodes| ==> InBounds(grid, nodes[i]) && nodes[i].row < r
      invariant forall c :: InBounds(grid, c) && c.row < r ==> c in nodes
      invariant forall i, j :: 0 <= i < j < |nodes| ==> RowMajorBefore(nodes[i], nodes[j])
    {
      for c := 0 to grid.Length1
        invariant |nodes| == r * grid.Length1 + c
        invariant forall i :: 0 <= i < |nodes| ==> InBounds(grid, nodes[i]) && RowMajorBefore(nodes[i], Cell(r, c))
        invariant forall x :: InBounds(grid, x) && (x.row < r || (x.row == r && x.col < c)) ==> x in nodes
        invariant forall i, j :: 0 <= i < j < |nodes| ==> RowMajorBefore(nodes[i], nodes[j])
      {
        nodes := nodes + [Cell(r, c)];
      }
    }
  }

  /** Predecessor links are acyclic on `S`: every node of `S` that has a
      `previousNode` points to another node of `S` of smaller rank. */
  ghost predicate PrevRanked(grid: array2<Node>, S: set<Cell>, rank: map<Cell, nat>)
    reads grid
  {
    forall c :: c in S ==>
      InBounds(grid, c) && c in rank &&
      (At(grid, c).previousNode.Some? ==>
        At(grid, c).previousNode.value in S &&
        At(grid, c).previousNode.value in rank &&
        rank[At(grid, c).previousNode.value] < rank[c])
  }

  /** `getNodesInShortestPathOrder(finishNode)`: follows `previousNode` back
      from `finishNode` to a node without one, prepending each node. */
  method GetNodesInShortestPathOrder(grid: array2<Node>, finishNode: Cell, ghost S: set<Cell>, ghost rank: map<Cell, nat>)
    returns (path: seq<Cell>)
    requires finishNode in S && PrevRanked(grid, S, rank)
    ensures |path| > 0 && path[|path| - 1] == finishNode
    ensures forall i :: 0 <= i < |path| ==> path[i] in S && InBounds(grid, path[i])
    ensures At(grid, path[0]).previousNode == None
    ensures forall i :: 0 <= i < |path| - 1 ==> At(grid, path[i + 1]).previousNode == Some(path[i])
    ensures forall i, j :: 0 <= i < j < |path| ==> rank[path[i]] < rank[path[j]]
  {
    path := [];
    var currentNode: Option<Cell> := Some(finishNode);
    while currentNode != None
      invariant currentNode.Some? ==> currentNode.value in S
      invariant forall i :: 0 <= i < |path| ==> path[i] in S && InBounds(grid, path[i])
      invariant path == [] ==> currentNode == Some(finishNode)
      invariant path != [] ==> path[|path| - 1] == finishNode && currentNode == At(grid, path[0]).previousNode
      invariant forall i :: 0 <= i < |path| - 1 ==> At(grid, path[i + 1]).previousNode == Some(path[i])
      invariant forall i, j :: 0 <= i < j < |path| ==> rank[path[i]] < rank[path[j]]
      invariant currentNode.Some? && path != [] ==> rank[currentNode.value] < rank[path[0]]
      decreases if currentNode.Some? then rank[currentNode.value] + 1 else 0
    {
      var node := currentNode.value;
      path := [node] + path;
      currentNode := At(grid, node).previousNode;
    }
  }

  /** A walk from `from` to `to`: consecutive cells are orthogonal neighbours
      inside the grid and no cell strictly between the ends is a wall. */
  ghost predicate IsPath(grid: array2<Node>, p: seq<Cell>, from: Cell, to: Cell)
    reads grid
  {
    && |p| > 0 && p[0] == from && p[|p| - 1] == to
    && (forall i :: 0 <= i < |p| ==> InBounds(grid, p[i]))
    && (forall i :: 0 <= i < |p| - 1 ==> Adjacent(p[i], p[i + 1]))
    && (forall i :: 0 < i < |p| - 1 ==> !At(grid, p[i]).isWall)
  }

  ghost predicate Reachable(grid: array2<Node>, from: Cell, to: Cell)
    reads grid
  {
    exists p :: IsPath(grid, p, from, to)
  }

  /** No step leads out of `S` into an open cell. */
  ghost predicate Closed(grid: array2<Node>, S: set<Cell>)
    reads grid
  {
    forall c, n :: c in S && InBounds(grid, n) && Adjacent(c, n) && !At(grid, n).isWall ==> n in S
  }

  /** A walk that starts in a closed set stays in it up to an open last cell. */
  lemma ClosedKeepsWalkInside(grid: array2<Node>, S: set<Cell>, p: seq<Cell>, from: Cell, to: Cell)
    requires Closed(grid, S) && from in S && IsPath(grid, p, from, to)
    requires !At(grid, to).isWall
    ensures to in S
  {
    var i := 0;
    while i < |p| - 1
      invariant 0 <= i < |p| && p[i] in S
    {
      assert Adjacent(p[i], p[i + 1]) && !At(grid, p[i + 1]).isWall;
      i := i + 1;
    }
  }

  /** The completeness argument of every search: when the cells a search has
      expanded form a closed set that holds `from` but not the open cell `to`,
      no walk at all leads from `from` to `to`. */
  lemma ClosedSetSeparates(grid: array2<Node>, S: set<Cell>, from: Cell, to: Cell)
    requires Closed(grid, S) && from in S && to !in S
    requires InBounds(grid, to) && !At(grid, to).isWall
    ensures !Reachable(grid, from, to)
  {
    forall p | IsPath(grid, p, from, to) ensures false {
      ClosedKeepsWalkInside(grid, S, p, from, to);
    }
  }

  function Reversed(p: seq<Cell>): (r: seq<Cell>)
    ensures |r| == |p| && forall i :: 0 <= i < |p| ==> r[i] == p[|p| - 1 - i]
  {
    seq(|p|, i requires 0 <= i < |p| => p[|p| - 1 - i])
  }

  /** Walks can be taken backwards. */
  lemma ReachableSymmetric(grid: array2<Node>, from: Cell, to: Cell)
    requires Reachable(grid, from, to)
    ensures Reachable(grid, to, from)
  {
    var p :| IsPath(grid, p, from, to);
    var r := Reversed(p);
    forall i | 0 <= i < |r| - 1 ensures Adjacent(r[i], r[i + 1]) {
      assert r[i] == p[|p| - 1 - i] && r[i + 1] == p[|p| - 1 - (i + 1)];
    }
    assert IsPath(grid, r, to, from);
  }

  /** The cost of walking `p`: the weight of every cell entered after the first. */
  ghost function PathCost(grid: array2<Node>, p: seq<Cell>): nat
    reads grid
    requires forall i :: 0 <= i < |p| ==> InBounds(grid, p[i])
  {
    if |p| <= 1 then 0 else PathCost(grid, p[..|p| - 1]) + EffectiveWeight(At(grid, p[|p| - 1]))
  }

  /** A walk costs at least as much as any of its nonempty prefixes. */
  lemma {:induction false} PrefixCostLe(grid: array2<Node>, p: seq<Cell>, k: nat)
    requires forall i :: 0 <= i < |p| ==> InBounds(grid, p[i])
    requires 0 < k <= |p|
    ensures PathCost(grid, p[..k]) <= PathCost(grid, p)
  {
    if k < |p| {
      var q := p[..|p| - 1];
      PrefixCostLe(grid, q, k);
      assert q[..k] == p[..k];
    } else {
      assert p[..k] == p;
    }
  }

  /** A walk's cost splits at any of its cells. */
  lemma {:induction false} PathCostSplit(grid: array2<Node>, p: seq<Cell>, k: nat)
    requires forall i :: 0 <= i < |p| ==> InBounds(grid, p[i])
    requires k < |p|
    ensures PathCost(grid, p) == PathCost(grid, p[..k + 1]) + PathCost(grid, p[k..])
  {
    if k == |p| - 1 {
      assert p[..k + 1] == p;
    } else {
      var q := p[..|p| - 1];
      PathCostSplit(grid, q, k);
      assert q[..k + 1] == p[..k + 1];
      var s := p[k..];
      assert s[..|s| - 1] == q[k..];
    }
  }

  /** The rest of a walk from one of its cells on is a walk. */
  lemma SuffixIsPath(grid: array2<Node>, p: seq<Cell>, from: Cell, to: Cell, k: nat)
    requires IsPath(grid, p, from, to) && k < |p|
    ensures IsPath(grid, p[k..], p[k], to)
  {
    var s := p[k..];
    forall i | 0 <= i < |s| - 1 ensures Adjacent(s[i], s[i + 1]) {
      assert s[i] == p[k + i] && s[i + 1] == p[k + i + 1];
    }
    forall i | 0 < i < |s| - 1 ensures !At(grid, s[i]).isWall {
      assert s[i] == p[k + i];
    }
  }

  /** The Manhattan heuristic never overestimates: every walk costs at least
      as many steps as it has, and needs at least the Manhattan distance of
      its ends in steps, because each weight is at least 1. */
  lemma {:induction false} ManhattanAdmissible(grid: array2<Node>, p: seq<Cell>, from: Cell, to: Cell)
    requires IsPath(grid, p, from, to)
    ensures ManhattanDistance(from, to) <= |p| - 1 <= PathCost(grid, p)
  {
    if |p| > 1 {
      var q := p[..|p| - 1];
      assert IsPath(grid, q, from, q[|q| - 1]) by {
        forall i | 0 <= i < |q| - 1 ensures Adjacent(q[i], q[i + 1]) {
          assert q[i] == p[i] && q[i + 1] == p[i + 1];
        }
      }
      ManhattanAdmissible(grid, q, from, q[|q| - 1]);
      ManhattanTriangle(from, q[|q| - 1], to);
    }
  }

  /** What a search promises about its result `{ visitedNodesInOrder, path }`:
      the visited cells are open and listed once, the start first; a path is
      returned exactly when the finish was visited, last; and the path is a
      walk from the start to the finish through visited cells, each once. */
  ghost predicate SoundResult(grid: array2<Node>, start: Cell, finish: Cell, r: SearchResult)
    reads grid
  {
    var visited, path := r.visitedNodesInOrder, r.path;
    && Distinct(visited) && NoWalls(grid, visited)
    && (|visited| > 0 ==> visited[0] == start)
    && (path != [] <==> finish in visited)
    && (path != [] ==>
          && IsPath(grid, path, start, finish) && Distinct(path)
          && (forall c :: c in path ==> c in visited)
          && visited[|visited| - 1] == finish)
  }

  /** An empty path is only returned when no walk leads from an open start to
      an open finish. */
  ghost predicate CompleteResult(grid: array2<Node>, start: Cell, finish: Cell, r: SearchResult)
    reads grid
  {
    (r.path == [] && InBounds(grid, start) && InBounds(grid, finish) &&
     !At(grid, start).isWall && !At(grid, finish).isWall) ==> !Reachable(grid, start, finish)
  }

  /** The nodes flagged `isVisited` are exactly the cells of `visited`. */
  ghost predicate VisitedExactly(grid: array2<Node>, visited: seq<Cell>)
    reads grid
  {
    forall c :: InBounds(grid, c) ==> (At(grid, c).isVisited <==> c in visited)
  }
}
