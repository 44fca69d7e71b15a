/** The grid every search and maze generator works on: a rectangular array of
    node records, one per cell. A JavaScript node object is identified by the
    cell it sits in, so a reference to a node (`previousNode`, `nextNode`, an
    entry of a queue or of a result list) is modelled by that node's `Cell`. */
module Nodes {
  import opened Wrappers

  /** Row and column of a cell. */
  datatype Cell = Cell(row: int, col: int)

  /** A tentative distance: a finite value or JavaScript's `Infinity`. */
  datatype Dist = Fin(value: nat) | Inf

  /** `a <= b` on distances, with `Infinity` above every finite value. */
  predicate DistLe(a: Dist, b: Dist) {
    b.Inf? || (a.Fin? && a.value <= b.value)
  }

  /** `a < b` on distances, with `Infinity` above every finite value. */
  predicate DistLt(a: Dist, b: Dist) {
    a.Fin? && (b.Inf? || a.value < b.value)
  }

  /** One node object. `weight == 0` stands for an unset weight and `h == 0` for
      an unset cached heuristic (both are read through JavaScript's `||`);
      `g`, `f` and `nextNode` are only meaningful once a search has set them. */
  datatype Node = Node(
    col: int, row: int,
    isStart: bool, isFinish: bool,
    distance: Dist, totalDistance: Dist,
    isVisited: bool, isWall: bool,
    previousNode: Option<Cell>,
    weight: nat, g: nat, f: nat, h: nat,
    nextNode: Option<Cell>)

  /** The cost of entering a node: `node.weight || 1`. */
  function EffectiveWeight(n: Node): (w: nat)
    ensures w >= 1
    ensures n.weight >= 1 ==> w == n.weight
  {
    if n.weight == 0 then 1 else n.weight
  }

  predicate InBounds(grid: array2<Node>, c: Cell) {
    0 <= c.row < grid.Length0 && 0 <= c.col < grid.Length1
  }

  /** Every cell of `s` lies inside the grid. */
  ghost predicate AllInBounds(grid: array2<Node>, s: seq<Cell>) {
    forall i :: 0 <= i < |s| ==> InBounds(grid, s[i])
  }

  /** The node object a cell refers to: `grid[c.row][c.col]`. */
  function At(grid: array2<Node>, c: Cell): Node
    reads grid
    requires InBounds(grid, c)
  {
    grid[c.row, c.col]
  }

  /** Every cell of the grid. */
  ghost function AllCells(grid: array2<Node>): (cells: set<Cell>)
    ensures forall c :: c in cells <==> InBounds(grid, c)
  {
    set r, c | 0 <= r < grid.Length0 && 0 <= c < grid.Length1 :: Cell(r, c)
  }

  /** The grid's nodes as a value, keyed by cell: what the proofs compare
      between two moments of a search. */
  ghost function View(grid: array2<Node>): (G: map<Cell, Node>)
    reads grid
    ensures forall c :: c in G <==> InBounds(grid, c)
    ensures forall c :: c in G ==> G[c] == At(grid, c)
  {
    map c | c in AllCells(grid) :: At(grid, c)
  }

  /** The shape invariant the searches rely on: the node stored at `[r][c]`
      carries `row == r` and `col == c`, so a node and its cell determine each
      other. `getNeighbors` and `manhattanDistance` (lines 5-17) read a
      node's own `row` and `col`; on such a grid those are its cell. */
  ghost predicate Shaped(grid: array2<Node>)
    reads grid
  {
    forall r, c :: 0 <= r < grid.Length0 && 0 <= c < grid.Length1 ==>
      grid[r, c].row == r && grid[r, c].col == c
  }

  /** Per-run search state at its defaults. */
  predicate CleanNode(n: Node) {
    n.distance == Inf && n.totalDistance == Inf && !n.isVisited && n.previousNode == None
  }

  /** Every node's per-run search state is at its defaults, as a search expects
      to find it. */
  ghost predicate Clean(grid: array2<Node>)
    reads grid
  {
    forall r, c :: 0 <= r < grid.Length0 && 0 <= c < grid.Length1 ==> CleanNode(grid[r, c])
  }

  predicate Distinct<T(==)>(s: seq<T>) {
    forall i, j :: 0 <= i < j < |s| ==> s[i] != s[j]
  }

  /** No cell of `s` is a wall. */
  ghost predicate NoWalls(grid: array2<Node>, s: seq<Cell>)
    reads grid
  {
    forall i :: 0 <= i < |s| ==> InBounds(grid, s[i]) && !At(grid, s[i]).isWall
  }

  /** What every search returns: `{ visitedNodesInOrder, path }`. */
  datatype SearchResult = SearchResult(visitedNodesInOrder: seq<Cell>, path: seq<Cell>)

  /** Adding a grid cell to a set of grid cells shrinks the set of cells it misses. */
  lemma MissingShrinks(all: set<Cell>, s: set<Cell>, c: Cell)
    requires c in all && c !in s
    ensures |all - (s + {c})| < |all - s|
  {
    assert all - s == (all - (s + {c})) + {c};
  }

  lemma SubsetSmaller(a: set<Cell>, b: set<Cell>)
    requires a <= b
    ensures |a| <= |b|
  {
    assert b == a + (b - a);
  }

  /** A set that grew inside `all` leaves fewer cells of `all` outside it. */
  lemma Shrinks(all: set<Cell>, s: set<Cell>, s': set<Cell>)
    requires s <= s' <= all
    ensures s' == s || |all - s'| < |all - s|
  {
    if s' != s {
      var x :| x in s' && x !in s;
      MissingShrinks(all, s, x);
      SubsetSmaller(all - s', all - (s + {x}));
    }
  }

  /** Taking the front off a queue that holds each cell at most once. */
  lemma FrontPops(Q: seq<Cell>)
    requires Q != [] && forall x :: multiset(Q)[x] <= 1
    ensures Q[0] !in Q[1..] && (forall x :: x in Q <==> x in Q[1..] || x == Q[0])
    ensures forall x :: multiset(Q[1..])[x] <= 1
  {
    assert Q == [Q[0]] + Q[1..];
    assert multiset(Q) == multiset{Q[0]} + multiset(Q[1..]);
    assert multiset(Q)[Q[0]] == 1 + multiset(Q[1..])[Q[0]];
    forall x ensures multiset(Q[1..])[x] <= 1 {
      assert multiset(Q)[x] >= multiset(Q[1..])[x];
    }
  }

  /** `b` is `a` with at most the fields a weighted search writes changed:
      `distance`, `isVisited` and `previousNode`. */
  predicate OnlySearchFields(a: Node, b: Node) {
    && a.col == b.col && a.row == b.row && a.isStart == b.isStart && a.isFinish == b.isFinish
    && a.totalDistance == b.totalDistance && a.isWall == b.isWall && a.weight == b.weight
    && a.g == b.g && a.f == b.f && a.h == b.h && a.nextNode == b.nextNode
  }

  /** Every node of `G0` is still in `G1` with the same fields, except at
      most `distance`, `isVisited` and `previousNode`. */
  ghost predicate KeepsOtherFields(G0: map<Cell, Node>, G1: map<Cell, Node>) {
    forall c :: c in G0 ==> c in G1 && OnlySearchFields(G0[c], G1[c])
  }

  lemma KeepsOtherFieldsTrans(G0: map<Cell, Node>, G1: map<Cell, Node>, G2: map<Cell, Node>)
    requires KeepsOtherFields(G0, G1) && KeepsOtherFields(G1, G2)
    ensures KeepsOtherFields(G0, G2)
  {
  }

  /** `G1` is `G0` with at most `isVisited` and `previousNode` changed. */
  ghost predicate MarksOnly(G0: map<Cell, Node>, G1: map<Cell, Node>) {
    forall c :: c in G0 ==> c in G1 && G1[c] == G0[c].(isVisited := G1[c].isVisited, previousNode := G1[c].previousNode)
  }

  lemma MarksOnlyTrans(G0: map<Cell, Node>, G1: map<Cell, Node>, G2: map<Cell, Node>)
    requires MarksOnly(G0, G1) && MarksOnly(G1, G2)
    ensures MarksOnly(G0, G2)
  {
  }

  /** `node.isVisited = true` on the node at `c`. */
  method MarkVisited(grid: array2<Node>, c: Cell)
    modifies grid
    requires InBounds(grid, c)
    ensures View(grid) == old(View(grid))[c := old(View(grid))[c].(isVisited := true)]
  {
    grid[c.row, c.col] := grid[c.row, c.col].(isVisited := true);
  }
}
