/** The link structure every search leaves behind: `previousNode` links
    pointing back towards the start and, for the end side of the
    bidirectional search, `nextNode` links pointing on towards the finish. */
module Trees {
  import opened Wrappers
  import opened Nodes
  import opened Helpers

  /** Which link field a tree is built from. */
  datatype Side = Back | Ahead

  function Link(side: Side, n: Node): (l: Option<Cell>)
    ensures side == Back ==> l == n.previousNode
    ensures side == Ahead ==> l == n.nextNode
  {
    match side
    case Back => n.previousNode
    case Ahead => n.nextNode
  }

  /** `c` links to an orthogonal neighbour in `S` of smaller rank, and is
      open. */
  ghost predicate Linked(G: map<Cell, Node>, side: Side, S: set<Cell>, rank: map<Cell, nat>, c: Cell) {
    && c in G && c in rank && !G[c].isWall
    && Link(side, G[c]).Some?
    && Link(side, G[c]).value in S
    && Link(side, G[c]).value in rank
    && rank[Link(side, G[c]).value] < rank[c]
    && Adjacent(Link(side, G[c]).value, c)
  }

  /** The links of `side` form a tree on `S` rooted at `root`: the root has
      no link and every other cell of `S` is `Linked`. */
  ghost predicate Tree(G: map<Cell, Node>, side: Side, root: Cell, S: set<Cell>, rank: map<Cell, nat>) {
    && root in S
    && (forall c :: c in S ==> c in G && c in rank)
    && Link(side, G[root]) == None
    && (forall c {:trigger Linked(G, side, S, rank, c)} :: c in S && c != root ==> Linked(G, side, S, rank, c))
  }

  /** Reading the `previousNode` tree back from `target` gives a walk from the
      root to `target` inside the tree, each cell once, each cell after the
      first linked back to the one before it. */
  method TracePath(grid: array2<Node>, ghost root: Cell, target: Cell, ghost S: set<Cell>, ghost rank: map<Cell, nat>)
    returns (path: seq<Cell>)
    requires Tree(View(grid), Back, root, S, rank) && target in S
    ensures IsPath(grid, path, root, target) && Distinct(path)
    ensures forall c :: c in path ==> c in S
    ensures forall i :: 0 <= i < |path| - 1 ==> At(grid, path[i + 1]).previousNode == Some(path[i])
  {
    ghost var G := View(grid);
    assert PrevRanked(grid, S, rank) by {
      forall c | c in S && c != root ensures Linked(G, Back, S, rank, c) {
      }
    }
    path := GetNodesInShortestPathOrder(grid, target, S, rank);
    assert path[0] == root || Linked(G, Back, S, rank, path[0]);
    forall i, j | 0 <= i < j < |path| ensures path[i] != path[j] {
      assert rank[path[i]] < rank[path[j]];
    }
    forall i | 0 < i < |path| ensures Adjacent(path[i - 1], path[i]) && !At(grid, path[i]).isWall {
      assert path[i] != root;
      assert Linked(G, Back, S, rank, path[i]);
    }
  }
}
