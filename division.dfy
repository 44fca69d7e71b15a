/** `generateMazeRecursiveDivision` and `computeWallsRecursive`
    (algorithms.js, lines 256-315). Despite its name the generator is a
    randomised depth-first backtracker: from the start node it jumps two
    cells at a time to lattice cells it has not visited, carving the landing
    cell and the cell passed over, and finally lists every cell it did not
    carve as a wall, except the start, the finish and a random tenth. */
module Division {
  import opened Nodes
  import opened Helpers
  import opened Mazes

  /** Line 261: every node's weight becomes 1. */
  method ResetWeights(grid: array2<Node>)
    modifies grid
    ensures forall r, c :: 0 <= r < grid.Length0 && 0 <= c < grid.Length1 ==>
      grid[r, c] == old(grid[r, c]).(weight := 1)
  {
    for r := 0 to grid.Length0
      invariant forall i, j :: 0 <= i < grid.Length0 && 0 <= j < grid.Length1 ==>
        grid[i, j] == if i < r then old(grid[i, j]).(weight := 1) else old(grid[i, j])
    {
      for c := 0 to grid.Length1
        invariant forall i, j :: 0 <= i < grid.Length0 && 0 <= j < grid.Length1 ==>
          grid[i, j] == if i < r || (i == r && j < c) then old(grid[i, j]).(weight := 1) else old(grid[i, j])
      {
        grid[r, c] := grid[r, c].(weight := 1);
      }
    }
  }

  /** The state of the backtracking loop (lines 282-302): the visited cells
      `V` lie inside the grid and form a tree rooted at the start; the empty
      spaces `E` are `V` and the finish; the stack holds visited lattice
      cells; and every visited lattice cell is on the stack, in `pending`, or
      has no jump left that lands inside the grid outside `V`. */
  ghost predicate Exploring(grid: array2<Node>, start: Cell, finish: Cell, V: set<Cell>, E: set<Cell>,
                            stack: seq<Cell>, parent: map<Cell, Cell>, rank: map<Cell, nat>, t: nat,
                            pending: set<Cell>) {
    && V <= AllCells(grid) && E == V + {finish}
    && Carving(V, start, parent, rank) && (forall x :: x in rank ==> rank[x] < t)
    && (forall i :: 0 <= i < |stack| ==> stack[i] in V && OnLattice(start, stack[i]))
    && (forall c :: c in V && OnLattice(start, c) ==> c in stack || c in pending || Done(grid, V, c))
  }

  /** Lines 273-280: only the start is visited and on the stack. */
  lemma ExploringStarts(grid: array2<Node>, start: Cell, finish: Cell)
    requires InBounds(grid, start)
    ensures Exploring(grid, start, finish, {start}, {start, finish}, [start], map[], map[start := 0], 1, {})
  {
  }

  /** Popping `curr` off the stack leaves it pending. */
  lemma PopKeeps(grid: array2<Node>, start: Cell, finish: Cell, V: set<Cell>, E: set<Cell>, stack: seq<Cell>,
                 parent: map<Cell, Cell>, rank: map<Cell, nat>, t: nat)
    requires Exploring(grid, start, finish, V, E, stack, parent, rank, t, {}) && stack != []
    ensures var curr := stack[|stack| - 1];
      && curr in V && OnLattice(start, curr)
      && Exploring(grid, start, finish, V, E, stack[..|stack| - 1], parent, rank, t, {curr})
  {
    assert stack == stack[..|stack| - 1] + [stack[|stack| - 1]];
  }

  /** Lines 294-300: the jump `d` from `curr` lands inside the grid on the
      unvisited cell `n`; visiting and emptying it and the cell passed over,
      and pushing `n` and `curr`, keeps the loop's state. */
  lemma JumpKeeps(grid: array2<Node>, start: Cell, finish: Cell, V: set<Cell>, E: set<Cell>, stack: seq<Cell>,
                  parent: map<Cell, Cell>, rank: map<Cell, nat>, t: nat, curr: Cell, d: Jump)
    returns (parent': map<Cell, Cell>, rank': map<Cell, nat>)
    requires Exploring(grid, start, finish, V, E, stack, parent, rank, t, {curr})
    requires curr in V && OnLattice(start, curr) && d in Jumps
    requires InBounds(grid, Land(curr, d)) && Land(curr, d) !in V
    ensures var n, mid := Land(curr, d), Midpoint(curr, d);
      Exploring(grid, start, finish, V + {n} + {mid}, E + {n} + {mid}, stack + [n] + [curr], parent', rank', t + 2, {curr})
  {
    var n, mid := Land(curr, d), Midpoint(curr, d);
    JumpLattice(start, curr, d);
    parent', rank' := CarvingGrows(V, start, parent, rank, t, curr, mid, n);
    var V', S' := V + {n} + {mid}, stack + [n] + [curr];
    assert V + {n, mid} == V';
    assert forall i :: 0 <= i < |S'| ==> S'[i] in V' && OnLattice(start, S'[i]) by {
      forall i | 0 <= i < |S'| ensures S'[i] in V' && OnLattice(start, S'[i]) {
        if i < |stack| {
          assert S'[i] == stack[i];
        }
      }
    }
    forall c | c in V' && OnLattice(start, c) ensures c in S' || c in {curr} || Done(grid, V', c) {
      if c in V && c !in stack && c != curr {
        assert Done(grid, V, c);
      }
    }
  }

  /** Every jump of `ds` from `c` that lands inside the grid lands in `V`. */
  ghost predicate Tried(grid: array2<Node>, c: Cell, ds: seq<Jump>, V: set<Cell>) {
    forall d :: d in ds && InBounds(grid, Land(c, d)) ==> Land(c, d) in V
  }

  lemma TriedStep(grid: array2<Node>, c: Cell, ds: seq<Jump>, k: nat, V: set<Cell>, V': set<Cell>)
    requires k < |ds| && Tried(grid, c, ds[..k], V) && V <= V'
    requires InBounds(grid, Land(c, ds[k])) ==> Land(c, ds[k]) in V'
    ensures Tried(grid, c, ds[..k + 1], V')
  {
    assert ds[..k + 1] == ds[..k] + [ds[k]];
  }

  /** Once every jump of `dirs`, a shuffle of all four, has been tried from
      `curr`, nothing is left pending. */
  lemma Settled(grid: array2<Node>, start: Cell, finish: Cell, V: set<Cell>, E: set<Cell>, stack: seq<Cell>,
                parent: map<Cell, Cell>, rank: map<Cell, nat>, t: nat, curr: Cell, dirs: seq<Jump>)
    requires Exploring(grid, start, finish, V, E, stack, parent, rank, t, {curr})
    requires multiset(dirs) == multiset(Jumps) && Tried(grid, curr, dirs[..|dirs|], V)
    ensures Exploring(grid, start, finish, V, E, stack, parent, rank, t, {}) && Done(grid, V, curr)
  {
    assert dirs[..|dirs|] == dirs;
    forall d | d in Jumps && InBounds(grid, Land(curr, d)) ensures Land(curr, d) in V {
      assert d in multiset(dirs);
    }
  }

  /** Lines 286-301 for the popped cell `curr`: try the four jumps in the
      shuffled order `dirs`; a jump that lands inside the grid on a cell not
      yet visited visits and empties the landing cell and the cell passed
      over, and pushes the landing cell and then `curr` again. Afterwards no
      jump from `curr` is left unexplored, and the stack is unchanged if
      nothing new was visited. */
  method TryJumps(grid: array2<Node>, startNode: Cell, finishNode: Cell, curr: Cell, dirs: seq<Jump>,
                  visited: set<Cell>, emptySpaces: set<Cell>, stack: seq<Cell>,
                  ghost parent: map<Cell, Cell>, ghost rank: map<Cell, nat>, ghost t: nat)
    returns (visited': set<Cell>, emptySpaces': set<Cell>, stack': seq<Cell>,
             ghost parent': map<Cell, Cell>, ghost rank': map<Cell, nat>, ghost t': nat)
    requires Exploring(grid, startNode, finishNode, visited, emptySpaces, stack, parent, rank, t, {curr})
    requires curr in visited && OnLattice(startNode, curr) && multiset(dirs) == multiset(Jumps)
    ensures Exploring(grid, startNode, finishNode, visited', emptySpaces', stack', parent', rank', t', {})
    ensures Done(grid, visited', curr)
    ensures visited <= visited' && (visited' == visited ==> stack' == stack)
  {
    visited', emptySpaces', stack', parent', rank', t' := visited, emptySpaces, stack, parent, rank, t;
    for k := 0 to |dirs|
      invariant Exploring(grid, startNode, finishNode, visited', emptySpaces', stack', parent', rank', t', {curr})
      invariant visited <= visited' && (visited' == visited ==> stack' == stack)
      invariant Tried(grid, curr, dirs[..k], visited')
    {
      ghost var V0 := visited';
      var d := dirs[k];
      assert d in multiset(Jumps);
      var n := Land(curr, d);
      var mid := Midpoint(curr, d);
      if 0 <= n.row < grid.Length0 && 0 <= n.col < grid.Length1 && n !in visited' {
        parent', rank' := JumpKeeps(grid, startNode, finishNode, visited', emptySpaces', stack', parent', rank', t', curr, d);
        visited' := visited' + {n};
        visited' := visited' + {mid};
        emptySpaces' := emptySpaces' + {n};
        emptySpaces' := emptySpaces' + {mid};
        stack' := stack' + [n];
        stack' := stack' + [curr];
        t' := t' + 2;
      }
      TriedStep(grid, curr, dirs, k, V0, visited');
    }
    Settled(grid, startNode, finishNode, visited', emptySpaces', stack', parent', rank', t', curr, dirs);
  }

  /** Lines 266-315: the backtracker followed by the scan. `order(i)` is the
      outcome of the `i`-th shuffle of the direction table and `staysWall`
      the coin that keeps a cell a wall. The carved cells are a connected
      region around the start that takes in every lattice cell of the grid;
      the wall list holds, in row-by-row order, exactly the cells outside it
      other than the finish and the flagged start and finish whose coin says
      wall. */
  method ComputeWallsRecursive(grid: array2<Node>, startNode: Cell, finishNode: Cell,
                               order: nat -> seq<nat>, staysWall: Cell -> bool)
    returns (mazeWalls: seq<Cell>, ghost carved: set<Cell>, ghost parent: map<Cell, Cell>, ghost rank: map<Cell, nat>)
    requires InBounds(grid, startNode)
    ensures startNode in carved && carved <= AllCells(grid) && Connected(carved, startNode)
    ensures Carving(carved, startNode, parent, rank)
    ensures forall c :: InBounds(grid, c) && OnLattice(startNode, c) ==> c in carved
    ensures forall c :: c in mazeWalls <==>
      InBounds(grid, c) && c !in carved && c != finishNode && !At(grid, c).isStart && !At(grid, c).isFinish && staysWall(c)
    ensures forall i, j :: 0 <= i < j < |mazeWalls| ==> RowMajorBefore(mazeWalls[i], mazeWalls[j])
  {
    var visited := {startNode};
    var stack := [startNode];
    var emptySpaces := {startNode, finishNode};
    parent, rank := map[], map[startNode := 0];
    ghost var t: nat := 1;
    ExploringStarts(grid, startNode, finishNode);
    var shuffles := 0;
    while |stack| > 0
      invariant Exploring(grid, startNode, finishNode, visited, emptySpaces, stack, parent, rank, t, {})
      decreases |AllCells(grid) - visited|, |stack|
    {
      PopKeeps(grid, startNode, finishNode, visited, emptySpaces, stack, parent, rank, t);
      var curr := stack[|stack| - 1];
      stack := stack[..|stack| - 1];
      var dirs := Shuffled(Jumps, order(shuffles));
      shuffles := shuffles + 1;
      ghost var V0 := visited;
      visited, emptySpaces, stack, parent, rank, t :=
        TryJumps(grid, startNode, finishNode, curr, dirs, visited, emptySpaces, stack, parent, rank, t);
      Shrinks(AllCells(grid), V0, visited);
    }
    CarvingConnected(visited, startNode, parent, rank);
    assert JumpClosed(grid, startNode, visited);
    forall c | InBounds(grid, c) && OnLattice(startNode, c) ensures c in visited {
      LatticeCovered(grid, startNode, visited, c);
    }
    mazeWalls := CollectWalls(grid, emptySpaces, staysWall);
    carved := visited;
  }

  /** Lines 257-263: reset every weight to 1, then run the backtracker. */
  method GenerateMazeRecursiveDivision(grid: array2<Node>, startNode: Cell, finishNode: Cell,
                                       order: nat -> seq<nat>, staysWall: Cell -> bool)
    returns (walls: seq<Cell>, ghost carved: set<Cell>, ghost parent: map<Cell, Cell>, ghost rank: map<Cell, nat>)
    modifies grid
    requires InBounds(grid, startNode)
    ensures forall r, c :: 0 <= r < grid.Length0 && 0 <= c < grid.Length1 ==>
      grid[r, c] == old(grid[r, c]).(weight := 1)
    ensures startNode in carved && carved <= AllCells(grid) && Connected(carved, startNode)
    ensures Carving(carved, startNode, parent, rank)
    ensures forall c :: InBounds(grid, c) && OnLattice(startNode, c) ==> c in carved
    ensures forall c :: c in walls <==>
      InBounds(grid, c) && c !in carved && c != finishNode && !At(grid, c).isStart && !At(grid, c).isFinish && staysWall(c)
    ensures forall i, j :: 0 <= i < j < |walls| ==> RowMajorBefore(walls[i], walls[j])
  {
    ResetWeights(grid);
    walls, carved, parent, rank := ComputeWallsRecursive(grid, startNode, finishNode, order, staysWall);
  }
}
