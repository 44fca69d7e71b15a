/** What both maze generators of algorithms.js (lines 254-404) share: jumps of
    two cells on the coarse lattice of the start node, the cell a jump passes
    over, the randomly shuffled order of the four jumps, the final row-by-row
    scan that turns everything not carved into a wall, and the notions the
    generators are proved against (a carved region that is a tree rooted at
    the start, and a lattice with no jump left unexplored). */
module Mazes {
  import opened Nodes
  import opened Helpers

  /** One of the jumps `[dr, dc]` of the direction table. */
  datatype Jump = Jump(dr: int, dc: int)

  /** The direction table `[[0, -2], [0, 2], [-2, 0], [2, 0]]`. */
  const Jumps: seq<Jump> := [Jump(0, -2), Jump(0, 2), Jump(-2, 0), Jump(2, 0)]

  /** Where a jump from `c` lands: `(row + dr, col + dc)`. */
  function Land(c: Cell, d: Jump): Cell {
    Cell(c.row + d.dr, c.col + d.dc)
  }

  /** The cell a jump passes over, `(row + dr/2, col + dc/2)`: a neighbour of
      both ends of the jump. */
  function Midpoint(c: Cell, d: Jump): (m: Cell)
    requires d in Jumps
    ensures Adjacent(c, m) && Adjacent(m, Land(c, d))
    ensures 2 * m.row == c.row + Land(c, d).row && 2 * m.col == c.col + Land(c, d).col
  {
    Cell(c.row + d.dr / 2, c.col + d.dc / 2)
  }

  /** The jump that undoes `d`. */
  function Back(d: Jump): (b: Jump)
    requires d in Jumps
    ensures b in Jumps && forall c :: Land(Land(c, d), b) == c
  {
    Jump(-d.dr, -d.dc)
  }

  /** `c` lies on the lattice of cells an even number of rows and columns
      away from `origin`. */
  predicate OnLattice(origin: Cell, c: Cell) {
    (c.row - origin.row) % 2 == 0 && (c.col - origin.col) % 2 == 0
  }

  /** Jumps stay on the lattice and the cell a jump passes over is off it. */
  lemma JumpLattice(origin: Cell, c: Cell, d: Jump)
    requires OnLattice(origin, c) && d in Jumps
    ensures OnLattice(origin, Land(c, d)) && !OnLattice(origin, Midpoint(c, d))
  {
  }

  /** `x` is two steps from `c` along a row or a column: where one of the
      jumps from `c` lands. */
  predicate Jumped(c: Cell, x: Cell) {
    ManhattanDistance(c, x) == 2 && (c.row == x.row || c.col == x.col)
  }

  lemma LandJumped(c: Cell, d: Jump)
    requires d in Jumps
    ensures Jumped(c, Land(c, d))
  {
  }

  lemma JumpedLattice(origin: Cell, c: Cell, x: Cell)
    requires OnLattice(origin, c) && Jumped(c, x)
    ensures OnLattice(origin, x)
  {
  }

  /** A shuffled copy of `ds`, the way `sort(() => Math.random() - 0.5)`
      leaves it: the choices `picks` say which of the remaining jumps comes
      next (an exhausted list of choices keeps the remaining order). */
  function Shuffled(ds: seq<Jump>, picks: seq<nat>): (r: seq<Jump>)
    ensures multiset(r) == multiset(ds)
    decreases |ds|
  {
    if ds == [] then []
    else
      var i := if picks == [] then 0 else picks[0] % |ds|;
      assert ds == ds[..i] + [ds[i]] + ds[i + 1..];
      [ds[i]] + Shuffled(ds[..i] + ds[i + 1..], if picks == [] then [] else picks[1..])
  }

  /** Dropping the entry at `i` from a list of distinct entries. */
  lemma Without(ds: seq<Jump>, i: nat)
    requires i < |ds| && Distinct(ds)
    ensures multiset(ds) == multiset(ds[..i] + ds[i + 1..]) + multiset{ds[i]}
    ensures Distinct(ds[..i] + ds[i + 1..])
  {
    var rest := ds[..i] + ds[i + 1..];
    assert ds == ds[..i] + [ds[i]] + ds[i + 1..];
    forall a, b | 0 <= a < b < |rest| ensures rest[a] != rest[b] {
      var a' := if a < i then a else a + 1;
      var b' := if b < i then b else b + 1;
      assert rest[a] == ds[a'] && rest[b] == ds[b'];
    }
  }

  lemma SmallMod(i: nat, n: nat)
    requires i < n
    ensures i % n == i
  {
  }

  /** The first entry of an order `r` of `ds` sits at some index `i` of
      `ds`, and the rest of `r` is an order of the rest of `ds`. */
  lemma Head(ds: seq<Jump>, r: seq<Jump>) returns (i: nat)
    requires multiset(r) == multiset(ds) && Distinct(ds) && ds != []
    ensures i < |ds| && r != [] && ds[i] == r[0]
    ensures multiset(r[1..]) == multiset(ds[..i] + ds[i + 1..]) && Distinct(ds[..i] + ds[i + 1..])
  {
    assert |r| == |multiset(r)| == |multiset(ds)| == |ds|;
    assert r[0] in multiset(ds);
    i :| i < |ds| && ds[i] == r[0];
    var rest := ds[..i] + ds[i + 1..];
    Without(ds, i);
    assert r == [r[0]] + r[1..];
    assert multiset(r) == multiset(r[1..]) + multiset{r[0]};
    forall x ensures multiset(r[1..])[x] == multiset(rest)[x] {
      assert multiset(r)[x] == multiset(ds)[x];
    }
  }

  /** Every order of `ds` (with distinct entries) is the outcome of some
      list of choices. */
  lemma {:induction false} ShuffledReaches(ds: seq<Jump>, r: seq<Jump>) returns (picks: seq<nat>)
    requires multiset(r) == multiset(ds) && Distinct(ds)
    ensures Shuffled(ds, picks) == r
    decreases |ds|
  {
    if ds == [] {
      assert |r| == |multiset(r)| == 0;
      return [];
    }
    var i := Head(ds, r);
    var rest := ds[..i] + ds[i + 1..];
    var picks' := ShuffledReaches(rest, r[1..]);
    picks := [i] + picks';
    SmallMod(i, |ds|);
    assert picks[1..] == picks';
    assert Shuffled(ds, picks) == [ds[i]] + Shuffled(rest, picks');
    assert r == [r[0]] + r[1..];
  }

  /** A walk through the cells of `S`: consecutive cells are neighbours. */
  ghost predicate Walk(S: set<Cell>, p: seq<Cell>, from: Cell, to: Cell) {
    && |p| > 0 && p[0] == from && p[|p| - 1] == to
    && (forall i :: 0 <= i < |p| ==> p[i] in S)
    && (forall i :: 0 <= i < |p| - 1 ==> Adjacent(p[i], p[i + 1]))
  }

  /** Every cell of `S` can be walked to from `root` without leaving `S`. */
  ghost predicate Connected(S: set<Cell>, root: Cell) {
    forall c :: c in S ==> exists p :: Walk(S, p, root, c)
  }

  /** No cell of `A` has a neighbour in `S` outside `A`. */
  ghost predicate NoExit(S: set<Cell>, A: set<Cell>) {
    forall a, s :: a in A && s in S && s !in A ==> !Adjacent(a, s)
  }

  /** A walk through `S` that starts in a region `A` with no exit never
      leaves `A`. */
  lemma {:induction false} WalkStaysIn(S: set<Cell>, A: set<Cell>, p: seq<Cell>)
    requires |p| > 0 && p[0] in A && NoExit(S, A)
    requires forall i :: 0 <= i < |p| ==> p[i] in S
    requires forall i :: 0 <= i < |p| - 1 ==> Adjacent(p[i], p[i + 1])
    ensures forall i :: 0 <= i < |p| ==> p[i] in A
    decreases |p|
  {
    if |p| > 1 {
      var q := p[..|p| - 1];
      WalkStaysIn(S, A, q);
      assert q[|p| - 2] == p[|p| - 2];
      assert p[|p| - 2] in A && Adjacent(p[|p| - 2], p[|p| - 1]);
    }
  }

  /** The carved cells `S` form a tree rooted at `root`: every other carved
      cell was carved next to a carved cell of smaller rank, its parent. */
  ghost predicate Carving(S: set<Cell>, root: Cell, parent: map<Cell, Cell>, rank: map<Cell, nat>) {
    && root in S
    && (forall c :: c in S ==> c in rank)
    && (forall c :: c in S && c != root ==>
          c in parent && parent[c] in S && Adjacent(parent[c], c) && rank[parent[c]] < rank[c])
  }

  /** The walk from the root down the parent links to `c`. */
  lemma {:induction false} CarvingWalk(S: set<Cell>, root: Cell, parent: map<Cell, Cell>, rank: map<Cell, nat>, c: Cell)
    returns (p: seq<Cell>)
    requires Carving(S, root, parent, rank) && c in S
    ensures Walk(S, p, root, c)
    decreases rank[c]
  {
    if c == root {
      p := [root];
    } else {
      var q := CarvingWalk(S, root, parent, rank, parent[c]);
      p := q + [c];
    }
  }

  /** A tree of carved cells is connected. */
  lemma CarvingConnected(S: set<Cell>, root: Cell, parent: map<Cell, Cell>, rank: map<Cell, nat>)
    requires Carving(S, root, parent, rank)
    ensures Connected(S, root)
  {
    forall c | c in S ensures exists p :: Walk(S, p, root, c) {
      var p := CarvingWalk(S, root, parent, rank, c);
    }
  }

  /** Carving `mid` next to the carved cell `from`, unless it is carved
      already, and then `c` next to `mid` keeps a tree. */
  lemma CarvingGrows(S: set<Cell>, root: Cell, parent: map<Cell, Cell>, rank: map<Cell, nat>, t: nat,
                     from: Cell, mid: Cell, c: Cell)
    returns (parent': map<Cell, Cell>, rank': map<Cell, nat>)
    requires Carving(S, root, parent, rank) && (forall x :: x in rank ==> rank[x] < t)
    requires from in S && c !in S && c != mid && Adjacent(from, mid) && Adjacent(mid, c)
    ensures Carving(S + {c, mid}, root, parent', rank') && (forall x :: x in rank' ==> rank'[x] < t + 2)
  {
    if mid !in S {
      parent', rank' := parent[mid := from][c := mid], rank[mid := t][c := t + 1];
    } else {
      parent', rank' := parent[c := mid], rank[c := t];
    }
  }

  /** Every jump from `c` that stays inside the grid lands in `V`. */
  ghost predicate Done(grid: array2<Node>, V: set<Cell>, c: Cell) {
    forall d :: d in Jumps && InBounds(grid, Land(c, d)) ==> Land(c, d) in V
  }

  /** No lattice cell of `S` has a jump out of `S` left inside the grid. */
  ghost predicate JumpClosed(grid: array2<Node>, origin: Cell, S: set<Cell>) {
    forall c :: c in S && OnLattice(origin, c) ==> Done(grid, S, c)
  }

  /** A lattice cell other than `origin` is one jump away from a lattice cell
      nearer to `origin`, inside the grid whenever both ends are. */
  lemma Closer(grid: array2<Node>, origin: Cell, c: Cell) returns (b: Cell, d: Jump)
    requires InBounds(grid, origin) && InBounds(grid, c) && OnLattice(origin, c) && c != origin
    ensures d in Jumps && Land(b, d) == c && InBounds(grid, b) && OnLattice(origin, b)
    ensures Abs(b.row - origin.row) + Abs(b.col - origin.col) < Abs(c.row - origin.row) + Abs(c.col - origin.col)
  {
    if c.row != origin.row {
      d := if c.row > origin.row then Jump(2, 0) else Jump(-2, 0);
      b := Cell(c.row - d.dr, c.col);
    } else {
      d := if c.col > origin.col then Jump(0, 2) else Jump(0, -2);
      b := Cell(c.row, c.col - d.dc);
    }
  }

  /** A set that holds `origin` and is closed under jumps holds the whole
      lattice of `origin` inside the grid. */
  lemma {:induction false} LatticeCovered(grid: array2<Node>, origin: Cell, S: set<Cell>, c: Cell)
    requires origin in S && JumpClosed(grid, origin, S)
    requires InBounds(grid, origin) && InBounds(grid, c) && OnLattice(origin, c)
    ensures c in S
    decreases Abs(c.row - origin.row) + Abs(c.col - origin.col)
  {
    if c != origin {
      var b, d := Closer(grid, origin, c);
      LatticeCovered(grid, origin, S, b);
      assert Done(grid, S, b);
    }
  }

  /** Lines 305-314 and 390-402: scan the grid row by row and list as a wall
      every cell that is neither kept open nor flagged as the start or the
      finish, and whose coin `staysWall` (`Math.random() > 0.1`) says it
      stays a wall. */
  method CollectWalls(grid: array2<Node>, open: set<Cell>, staysWall: Cell -> bool) returns (walls: seq<Cell>)
    ensures forall c :: c in walls <==>
      InBounds(grid, c) && c !in open && !At(grid, c).isStart && !At(grid, c).isFinish && staysWall(c)
    ensures forall i, j :: 0 <= i < j < |walls| ==> RowMajorBefore(walls[i], walls[j])
    ensures Distinct(walls)
  {
    walls := [];
    for r := 0 to grid.Length0
      invariant forall x :: x in walls <==>
        InBounds(grid, x) && x.row < r && x !in open && !At(grid, x).isStart && !At(grid, x).isFinish && staysWall(x)
      invariant forall i, j :: 0 <= i < j < |walls| ==> RowMajorBefore(walls[i], walls[j])
    {
      for c := 0 to grid.Length1
        invariant forall x :: x in walls <==>
          InBounds(grid, x) && RowMajorBefore(x, Cell(r, c))
          && x !in open && !At(grid, x).isStart && !At(grid, x).isFinish && staysWall(x)
        invariant forall i :: 0 <= i < |walls| ==> RowMajorBefore(walls[i], Cell(r, c))
        invariant forall i, j :: 0 <= i < j < |walls| ==> RowMajorBefore(walls[i], walls[j])
      {
        var cell := Cell(r, c);
        if cell !in open {
          var node := grid[r, c];
          if !node.isStart && !node.isFinish {
            if staysWall(cell) {
              walls := walls + [cell];
            }
          }
        }
      }
    }
  }
}
