/** The grid helpers of the `Grid` component (Grid.jsx): fresh nodes, the
    initial 20 by 50 grid with the start at (5, 5) and the finish at
    (10, 35), the reset that clears a grid's per-run search state, and the
    wall toggle of a click. */
module GridSetup {
  import opened Wrappers
  import opened Nodes

  const StartRow := 5
  const StartCol := 5
  const FinishRow := 10
  const FinishCol := 35

  /** `createNode(col, row)` (lines 12-22): a fresh open node, flagged as the
      start or the finish when it sits at their cells. The fields a fresh
      JavaScript node lacks (`weight`, `g`, `f`, `h`, `nextNode`) are unset:
      `0`, read through `||`, and `None`. */
  function CreateNode(col: int, row: int): (n: Node)
    ensures n.col == col && n.row == row
    ensures n.isStart <==> Cell(row, col) == Cell(StartRow, StartCol)
    ensures n.isFinish <==> Cell(row, col) == Cell(FinishRow, FinishCol)
    ensures CleanNode(n) && !n.isWall && n.weight == 0 && n.nextNode == None
  {
    Node(col, row,
         row == StartRow && col == StartCol, row == FinishRow && col == FinishCol,
         Inf, Inf, false, false, None,
         0, 0, 0, 0, None)
  }

  /** `getInitialGrid(rows, cols)` (lines 24-34): `rows` rows of `cols` fresh
      nodes, node `[r][c]` created at row `r` and column `c`. The result is
      shaped and clean, has no walls, and has exactly one start and one
      finish, at their cells, when those cells are inside it. */
  method GetInitialGrid(rows: nat, cols: nat) returns (grid: array2<Node>)
    ensures fresh(grid) && grid.Length0 == rows && grid.Length1 == cols
    ensures forall r, c :: 0 <= r < rows && 0 <= c < cols ==> grid[r, c] == CreateNode(c, r)
    ensures Shaped(grid) && Clean(grid) && NoWallAnywhere(grid)
    ensures forall x :: InBounds(grid, x) ==>
      (At(grid, x).isStart <==> x == Cell(StartRow, StartCol)) && (At(grid, x).isFinish <==> x == Cell(FinishRow, FinishCol))
  {
    grid := new Node[rows, cols];
    for row := 0 to rows
      invariant forall r, c :: 0 <= r < row && 0 <= c < cols ==> grid[r, c] == CreateNode(c, r)
    {
      for col := 0 to cols
        invariant forall r, c :: 0 <= r < rows && 0 <= c < cols && (r < row || (r == row && c < col)) ==>
          grid[r, c] == CreateNode(c, r)
      {
        grid[row, col] := CreateNode(col, row);
      }
    }
  }

  /** No node of the grid is a wall. */
  ghost predicate NoWallAnywhere(grid: array2<Node>)
    reads grid
  {
    forall r, c :: 0 <= r < grid.Length0 && 0 <= c < grid.Length1 ==> !grid[r, c].isWall
  }

  /** The grid the component starts with (line 37): 20 rows of 50 nodes,
      whose only start is (5, 5) and only finish (10, 35). */
  method DefaultGrid() returns (grid: array2<Node>)
    ensures fresh(grid) && grid.Length0 == 20 && grid.Length1 == 50
    ensures Shaped(grid) && Clean(grid) && NoWallAnywhere(grid)
    ensures InBounds(grid, Cell(StartRow, StartCol)) && InBounds(grid, Cell(FinishRow, FinishCol))
    ensures forall x :: InBounds(grid, x) ==>
      (At(grid, x).isStart <==> x == Cell(StartRow, StartCol)) && (At(grid, x).isFinish <==> x == Cell(FinishRow, FinishCol))
  {
    grid := GetInitialGrid(20, 50);
  }

  /** One node of the reset `map` (lines 45-51 and 70-76):
      `{...node, distance: Infinity, totalDistance: Infinity, isVisited: false,
      previousNode: null}`. The search state is back at its defaults and
      everything else is kept. */
  function ResetNode(n: Node): (m: Node)
    ensures CleanNode(m)
    ensures m.col == n.col && m.row == n.row && m.isStart == n.isStart && m.isFinish == n.isFinish
    ensures m.isWall == n.isWall && m.weight == n.weight && m.g == n.g && m.f == n.f && m.h == n.h
    ensures m.nextNode == n.nextNode
  {
    n.(distance := Inf, totalDistance := Inf, isVisited := false, previousNode := None)
  }

  /** Resetting is idempotent. */
  lemma ResetTwice(n: Node)
    ensures ResetNode(ResetNode(n)) == ResetNode(n)
  {
  }

  /** The reset `map` over a whole grid (lines 44-52 and 70-76): a new grid
      of the same shape, each node reset. The result is clean, so any search
      may run on it, and keeps every wall, flag and position. */
  method ResetGrid(grid: array2<Node>) returns (newGrid: array2<Node>)
    ensures fresh(newGrid) && newGrid.Length0 == grid.Length0 && newGrid.Length1 == grid.Length1
    ensures forall r, c :: 0 <= r < grid.Length0 && 0 <= c < grid.Length1 ==> newGrid[r, c] == ResetNode(grid[r, c])
    ensures Clean(newGrid)
    ensures Shaped(grid) ==> Shaped(newGrid)
  {
    newGrid := new Node[grid.Length0, grid.Length1];
    for row := 0 to grid.Length0
      invariant forall r, c :: 0 <= r < row && 0 <= c < grid.Length1 ==> newGrid[r, c] == ResetNode(grid[r, c])
    {
      for col := 0 to grid.Length1
        invariant forall r, c :: 0 <= r < grid.Length0 && 0 <= c < grid.Length1 && (r < row || (r == row && c < col)) ==>
          newGrid[r, c] == ResetNode(grid[r, c])
      {
        newGrid[row, col] := ResetNode(grid[row, col]);
      }
    }
  }

  /** What a click does to one node (lines 202-207): the start and the finish
      are left alone; any other node flips `isWall` and keeps every other
      field. */
  function Toggled(n: Node): (m: Node)
    ensures n.isStart || n.isFinish ==> m == n
    ensures !n.isStart && !n.isFinish ==> m.isWall == !n.isWall && m.(isWall := n.isWall) == n
  {
    if n.isStart || n.isFinish then n else n.(isWall := !n.isWall)
  }

  /** Toggling the same node twice restores it. */
  lemma ToggleTwice(n: Node)
    ensures Toggled(Toggled(n)) == n
  {
  }

  /** `getNewGridWithWallToggled(grid, row, col)` (lines 199-208). The copy
      `grid.slice()` shares its rows with `grid`, so the assignment to
      `newGrid[row][col]` writes into the grid itself: an update in place
      of node `[row][col]` by `Toggled`, every other node unchanged. */
  method GetNewGridWithWallToggled(grid: array2<Node>, row: int, col: int)
    modifies grid
    requires InBounds(grid, Cell(row, col))
    ensures grid[row, col] == Toggled(old(grid[row, col]))
    ensures forall r, c :: 0 <= r < grid.Length0 && 0 <= c < grid.Length1 && (r, c) != (row, col) ==>
      grid[r, c] == old(grid[r, c])
    ensures old(Shaped(grid)) ==> Shaped(grid)
  {
    var node := grid[row, col];
    if node.isStart || node.isFinish {
      return;
    }
    var newNode := node.(isWall := !node.isWall);
    grid[row, col] := newNode;
  }
}
