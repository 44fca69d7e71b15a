/** `generateMazePrims` (algorithms.js, lines 318-404): randomised Prim's
    algorithm on the lattice of the start node. A frontier of lattice cells
    two steps from the path grows around it; a frontier cell picked at random
    joins the path through a random path neighbour, together with a cell
    between them; finally the finish is opened and every cell off the path
    is listed as a wall, except the start, the finish and a random tenth.

    Lines 375-376 open the cell on the far side of the frontier cell instead
    of the cell between it and its path neighbour; `WallCellAsWritten` and
    `CarveAsWritten` keep that reading, and the generator itself opens the
    cell between (`Carve`). */
module Prims {
  import opened Nodes
  import opened Helpers
  import opened Mazes

  /** Lines 375-376 as written: `(r + (dr / 2) * -1, c + (dc / 2) * -1)` for
      the frontier cell `f` and the jump `d` from `f` to its path neighbour.
      It is a neighbour of `f`, but on the side away from the path neighbour,
      three steps from it. */
  function WallCellAsWritten(f: Cell, d: Jump): (w: Cell)
    requires d in Jumps
    ensures Adjacent(f, w) && ManhattanDistance(w, Land(f, d)) == 3
  {
    Cell(f.row + (d.dr / 2) * -1, f.col + (d.dc / 2) * -1)
  }

  /** Lines 372-376 as written: the frontier cell joins the path, and so
      does one neighbour of it, which is not a neighbour of the path
      neighbour `Land(f, d)` it was joined through. */
  function CarveAsWritten(P: set<Cell>, f: Cell, d: Jump): (P': set<Cell>)
    requires d in Jumps
    ensures P <= P' && f in P'
    ensures WallCellAsWritten(f, d) in P'
    ensures forall x :: x in P' && x !in P && x != f ==> Adjacent(f, x) && !Adjacent(x, Land(f, d))
  {
    P + {f} + {WallCellAsWritten(f, d)}
  }

  /** Lines 372-376 as intended: the frontier cell joins the path, and so
      does the cell between it and its path neighbour `Land(f, d)`, the
      only other cell added. */
  function Carve(P: set<Cell>, f: Cell, d: Jump): (P': set<Cell>)
    requires d in Jumps
    ensures P <= P' && f in P'
    ensures Midpoint(f, d) in P'
    ensures forall x :: x in P' && x !in P && x != f ==> Adjacent(f, x) && Adjacent(x, Land(f, d))
  {
    P + {f} + {Midpoint(f, d)}
  }

  /** The as-written carve can disconnect the path: with the path `{(0, 0)}`,
      carving the frontier cell `(0, 2)` through its path neighbour `(0, 0)`
      opens `(0, 3)`, outside a grid three columns wide, and every walk from
      the start inside the new path stays at the start. */
  lemma AsWrittenDisconnects()
    ensures WallCellAsWritten(Cell(0, 2), Jump(0, -2)) == Cell(0, 3)
    ensures var P := CarveAsWritten({Cell(0, 0)}, Cell(0, 2), Jump(0, -2));
      && (forall p, c :: Walk(P, p, Cell(0, 0), c) ==> c == Cell(0, 0))
      && Cell(0, 2) in P && !Connected(P, Cell(0, 0))
  {
    var P := CarveAsWritten({Cell(0, 0)}, Cell(0, 2), Jump(0, -2));
    assert P == {Cell(0, 0), Cell(0, 2), Cell(0, 3)};
    var A := {Cell(0, 0)};
    assert NoExit(P, A);
    forall p, c | Walk(P, p, Cell(0, 0), c) ensures c == Cell(0, 0) {
      WalkStaysIn(P, A, p);
    }
  }

  /** The intended carve keeps the path connected: the new cells hang off
      the path neighbour `Land(f, d)`. */
  lemma CarveConnected(P: set<Cell>, root: Cell, f: Cell, d: Jump)
    requires Connected(P, root) && d in Jumps && Land(f, d) in P
    ensures Connected(Carve(P, f, d), root)
  {
    var P', m, n := Carve(P, f, d), Midpoint(f, d), Land(f, d);
    var q :| Walk(P, q, root, n);
    var qm, qf := q + [m], q + [m, f];
    assert Walk(P', qm, root, m);
    assert Walk(P', qf, root, f);
    forall c | c in P' ensures exists p :: Walk(P', p, root, c) {
      if c == m {
        assert Walk(P', qm, root, c);
      } else if c == f {
        assert Walk(P', qf, root, c);
      } else {
        var p :| Walk(P, p, root, c);
        assert Walk(P', p, root, c);
      }
    }
  }

  /** The landing cells of the jumps `ds` from `c` that `addFrontier` (lines
      336-340) accepts, in order: inside the grid and off the path. */
  function Candidates(grid: array2<Node>, pathSet: set<Cell>, c: Cell, ds: seq<Jump>): (r: seq<Cell>)
    requires forall d :: d in ds ==> d in Jumps
    ensures forall x :: x in r ==> InBounds(grid, x) && x !in pathSet && Jumped(c, x)
    ensures forall d :: d in ds && InBounds(grid, Land(c, d)) && Land(c, d) !in pathSet ==> Land(c, d) in r
    decreases |ds|
  {
    if ds == [] then []
    else
      var x := Land(c, ds[|ds| - 1]);
      assert ds == ds[..|ds| - 1] + [ds[|ds| - 1]];
      LandJumped(c, ds[|ds| - 1]);
      Candidates(grid, pathSet, c, ds[..|ds| - 1]) + if InBounds(grid, x) && x !in pathSet then [x] else []
  }

  lemma CandidatesStep(grid: array2<Node>, pathSet: set<Cell>, c: Cell, k: nat)
    requires k < |Jumps|
    ensures var x := Land(c, Jumps[k]);
      Candidates(grid, pathSet, c, Jumps[..k + 1])
      == Candidates(grid, pathSet, c, Jumps[..k]) + if InBounds(grid, x) && x !in pathSet then [x] else []
  {
    assert Jumps[..k + 1][..k] == Jumps[..k];
  }

  /** Lines 346-348 and 378-380: `addFrontier` on the four jumps from `c`. */
  method AddFrontiers(grid: array2<Node>, c: Cell, pathSet: set<Cell>, frontier: seq<Cell>) returns (frontier': seq<Cell>)
    ensures frontier' == frontier + Candidates(grid, pathSet, c, Jumps)
  {
    frontier' := frontier;
    for k := 0 to |Jumps|
      invariant frontier' == frontier + Candidates(grid, pathSet, c, Jumps[..k])
    {
      var d := Jumps[k];
      var r, col := c.row + d.dr, c.col + d.dc;
      CandidatesStep(grid, pathSet, c, k);
      if r >= 0 && r < grid.Length0 && col >= 0 && col < grid.Length1 && Cell(r, col) !in pathSet {
        assert frontier' + [Cell(r, col)] == frontier + (Candidates(grid, pathSet, c, Jumps[..k]) + [Cell(r, col)]);
        frontier' := frontier' + [Cell(r, col)];
      }
    }
    assert Jumps[..|Jumps|] == Jumps;
  }

  /** Lines 357-364: the jumps from the frontier cell `f` that land inside
      the grid on the path. */
  method NeighborsInPath(grid: array2<Node>, f: Cell, pathSet: set<Cell>) returns (links: seq<Jump>)
    ensures forall d :: d in links <==> d in Jumps && InBounds(grid, Land(f, d)) && Land(f, d) in pathSet
  {
    links := [];
    for k := 0 to |Jumps|
      invariant forall d :: d in links <==> d in Jumps[..k] && InBounds(grid, Land(f, d)) && Land(f, d) in pathSet
    {
      var d := Jumps[k];
      var nr, nc := f.row + d.dr, f.col + d.dc;
      assert Jumps[..k + 1] == Jumps[..k] + [d];
      if nr >= 0 && nr < grid.Length0 && nc >= 0 && nc < grid.Length1 && Cell(nr, nc) in pathSet {
        links := links + [d];
      }
    }
    assert Jumps[..|Jumps|] == Jumps;
  }

  /** Every jump from `c` that lands inside the grid lands on the path `P`,
      on the frontier or in `pending`. */
  ghost predicate Reached(grid: array2<Node>, P: set<Cell>, frontier: seq<Cell>, pending: set<Cell>, c: Cell) {
    forall d :: d in Jumps && InBounds(grid, Land(c, d)) ==> Land(c, d) in P || Land(c, d) in frontier || Land(c, d) in pending
  }

  /** The state of Prim's loop (lines 350-383): the path `P` lies inside the
      grid and is a tree rooted at the start; the frontier holds lattice cells
      inside the grid; and every jump from a lattice cell of the path that
      lands inside the grid lands on the path, on the frontier or in
      `pending`. */
  ghost predicate Growing(grid: array2<Node>, start: Cell, P: set<Cell>, frontier: seq<Cell>,
                          parent: map<Cell, Cell>, rank: map<Cell, nat>, t: nat, pending: set<Cell>) {
    && P <= AllCells(grid)
    && Carving(P, start, parent, rank) && (forall x :: x in rank ==> rank[x] < t)
    && (forall i :: 0 <= i < |frontier| ==> InBounds(grid, frontier[i]) && OnLattice(start, frontier[i]))
    && (forall c :: c in P && OnLattice(start, c) ==> Reached(grid, P, frontier, pending, c))
  }

  /** Lines 331-348: the path holds the start and the frontier its jumps. */
  lemma GrowingStarts(grid: array2<Node>, start: Cell, frontier: seq<Cell>)
    requires InBounds(grid, start) && frontier == Candidates(grid, {start}, start, Jumps)
    ensures Growing(grid, start, {start}, frontier, map[], map[start := 0], 1, {})
  {
    CandidatesOnLattice(grid, start, {start}, start);
    assert forall i :: 0 <= i < |frontier| ==> frontier[i] in frontier;
  }

  /** Lines 351-353: taking entry `i` off the frontier leaves it pending. */
  lemma RemoveKeeps(grid: array2<Node>, start: Cell, P: set<Cell>, frontier: seq<Cell>,
                    parent: map<Cell, Cell>, rank: map<Cell, nat>, t: nat, i: nat)
    requires Growing(grid, start, P, frontier, parent, rank, t, {}) && i < |frontier|
    ensures InBounds(grid, frontier[i]) && OnLattice(start, frontier[i])
    ensures Growing(grid, start, P, frontier[..i] + frontier[i + 1..], parent, rank, t, {frontier[i]})
  {
    var F' := frontier[..i] + frontier[i + 1..];
    assert frontier == frontier[..i] + [frontier[i]] + frontier[i + 1..];
    assert forall x :: x in frontier ==> x in F' || x == frontier[i];
    forall j | 0 <= j < |F'| ensures InBounds(grid, F'[j]) && OnLattice(start, F'[j]) {
      assert F'[j] == if j < i then frontier[j] else frontier[j + 1];
    }
    forall c | c in P && OnLattice(start, c) ensures Reached(grid, P, F', {frontier[i]}, c) {
      assert Reached(grid, P, frontier, {}, c);
    }
  }

  /** Line 355: an entry already on the path is dropped. */
  lemma SkipKeeps(grid: array2<Node>, start: Cell, P: set<Cell>, frontier: seq<Cell>,
                  parent: map<Cell, Cell>, rank: map<Cell, nat>, t: nat, cell: Cell)
    requires Growing(grid, start, P, frontier, parent, rank, t, {cell}) && cell in P
    ensures Growing(grid, start, P, frontier, parent, rank, t, {})
  {
    forall c | c in P && OnLattice(start, c) ensures Reached(grid, P, frontier, {}, c) {
      assert Reached(grid, P, frontier, {cell}, c);
    }
  }

  /** Line 366 when no path cell is a jump away: no lattice cell of the path
      jumps to the dropped entry, so dropping it loses nothing. */
  lemma UnlinkedKeeps(grid: array2<Node>, start: Cell, P: set<Cell>, frontier: seq<Cell>,
                      parent: map<Cell, Cell>, rank: map<Cell, nat>, t: nat, cell: Cell)
    requires Growing(grid, start, P, frontier, parent, rank, t, {cell}) && InBounds(grid, cell)
    requires forall d :: d in Jumps && InBounds(grid, Land(cell, d)) ==> Land(cell, d) !in P
    ensures Growing(grid, start, P, frontier, parent, rank, t, {})
  {
    forall c | c in P && OnLattice(start, c) ensures Reached(grid, P, frontier, {}, c) {
      assert Reached(grid, P, frontier, {cell}, c);
      forall d | d in Jumps && InBounds(grid, Land(c, d)) ensures Land(c, d) != cell {
        assert Land(Land(c, d), Back(d)) == c;
      }
    }
  }

  /** The jumps from a lattice cell that `addFrontier` accepts are lattice
      cells inside the grid. */
  lemma CandidatesOnLattice(grid: array2<Node>, start: Cell, P: set<Cell>, c: Cell)
    requires OnLattice(start, c)
    ensures forall x :: x in Candidates(grid, P, c, Jumps) ==> InBounds(grid, x) && OnLattice(start, x)
  {
    forall x | x in Candidates(grid, P, c, Jumps) ensures InBounds(grid, x) && OnLattice(start, x) {
      JumpedLattice(start, c, x);
    }
  }

  /** Every jump from a lattice cell of the grown path lands on the path or
      on the grown frontier. */
  lemma ReachedGrows(grid: array2<Node>, start: Cell, P: set<Cell>, frontier: seq<Cell>, cell: Cell, mid: Cell)
    requires forall c :: c in P && OnLattice(start, c) ==> Reached(grid, P, frontier, {cell}, c)
    requires !OnLattice(start, mid)
    ensures var P', F' := P + {cell, mid}, frontier + Candidates(grid, P + {cell, mid}, cell, Jumps);
      forall c :: c in P' && OnLattice(start, c) ==> Reached(grid, P', F', {}, c)
  {
    var P', F' := P + {cell, mid}, frontier + Candidates(grid, P + {cell, mid}, cell, Jumps);
    forall c | c in P' && OnLattice(start, c) ensures Reached(grid, P', F', {}, c) {
      if c != cell {
        assert Reached(grid, P, frontier, {cell}, c);
      }
    }
  }

  /** Lines 366-381: the frontier cell `cell` joins the path through its
      path neighbour `Land(cell, d)`, with the cell between them, and its
      jumps join the frontier; the loop's state is kept. */
  lemma CarveKeeps(grid: array2<Node>, start: Cell, P: set<Cell>, frontier: seq<Cell>,
                   parent: map<Cell, Cell>, rank: map<Cell, nat>, t: nat, cell: Cell, d: Jump)
    returns (parent': map<Cell, Cell>, rank': map<Cell, nat>)
    requires Growing(grid, start, P, frontier, parent, rank, t, {cell})
    requires InBounds(grid, cell) && OnLattice(start, cell) && cell !in P
    requires d in Jumps && InBounds(grid, Land(cell, d)) && Land(cell, d) in P
    ensures var P' := Carve(P, cell, d);
      Growing(grid, start, P', frontier + Candidates(grid, P', cell, Jumps), parent', rank', t + 2, {})
  {
    var mid := Midpoint(cell, d);
    var P' := Carve(P, cell, d);
    assert P' == P + {cell, mid};
    var F' := frontier + Candidates(grid, P', cell, Jumps);
    JumpLattice(start, cell, d);
    parent', rank' := CarvingGrows(P, start, parent, rank, t, Land(cell, d), mid, cell);
    CandidatesOnLattice(grid, start, P', cell);
    assert forall j :: 0 <= j < |F'| ==> InBounds(grid, F'[j]) && OnLattice(start, F'[j]) by {
      forall j | 0 <= j < |F'| ensures InBounds(grid, F'[j]) && OnLattice(start, F'[j]) {
        if j >= |frontier| {
          assert F'[j] in Candidates(grid, P', cell, Jumps);
        }
      }
    }
    ReachedGrows(grid, start, P, frontier, cell, mid);
  }

  /** Lines 320-404 with the cell between opened at lines 375-376. `pick(i)`
      is the `i`-th random draw (an index is the draw modulo the length it
      indexes) and `staysWall` the coin that keeps a cell a wall. The path
      is a connected region around the start that takes in every lattice
      cell of the grid; the wall list holds, in row-by-row order, exactly the
      cells off the path other than the finish and the flagged start and
      finish whose coin says wall. */
  method GenerateMazePrims(grid: array2<Node>, startNode: Cell, finishNode: Cell,
                           pick: nat -> nat, staysWall: Cell -> bool)
    returns (resultWalls: seq<Cell>, ghost carved: set<Cell>, ghost parent: map<Cell, Cell>, ghost rank: map<Cell, nat>)
    requires InBounds(grid, startNode)
    ensures startNode in carved && carved <= AllCells(grid) && Connected(carved, startNode)
    ensures Carving(carved, startNode, parent, rank)
    ensures forall c :: InBounds(grid, c) && OnLattice(startNode, c) ==> c in carved
    ensures forall c :: c in resultWalls <==>
      InBounds(grid, c) && c !in carved && c != finishNode && !At(grid, c).isStart && !At(grid, c).isFinish && staysWall(c)
    ensures forall i, j :: 0 <= i < j < |resultWalls| ==> RowMajorBefore(resultWalls[i], resultWalls[j])
  {
    var frontier: seq<Cell> := [];
    var pathSet := {startNode};
    frontier := AddFrontiers(grid, startNode, pathSet, frontier);
    parent, rank := map[], map[startNode := 0];
    ghost var t: nat := 1;
    GrowingStarts(grid, startNode, frontier);
    var draws := 0;
    while |frontier| > 0
      invariant Growing(grid, startNode, pathSet, frontier, parent, rank, t, {})
      decreases |AllCells(grid) - pathSet|, |frontier|
    {
      var randIdx := pick(draws) % |frontier|;
      draws := draws + 1;
      var cell := frontier[randIdx];
      RemoveKeeps(grid, startNode, pathSet, frontier, parent, rank, t, randIdx);
      frontier := frontier[..randIdx] + frontier[randIdx + 1..];
      if cell in pathSet {
        SkipKeeps(grid, startNode, pathSet, frontier, parent, rank, t, cell);
        continue;
      }
      var neighborsInPath := NeighborsInPath(grid, cell, pathSet);
      if |neighborsInPath| > 0 {
        var connection := neighborsInPath[pick(draws) % |neighborsInPath|];
        draws := draws + 1;
        ghost var P := pathSet;
        parent, rank := CarveKeeps(grid, startNode, pathSet, frontier, parent, rank, t, cell, connection);
        pathSet := pathSet + {cell};
        var wall := Midpoint(cell, connection);
        pathSet := pathSet + {wall};
        frontier := AddFrontiers(grid, cell, pathSet, frontier);
        t := t + 2;
        MissingShrinks(AllCells(grid), P, cell);
        Shrinks(AllCells(grid), P + {cell}, pathSet);
      } else {
        UnlinkedKeeps(grid, startNode, pathSet, frontier, parent, rank, t, cell);
      }
    }
    CarvingConnected(pathSet, startNode, parent, rank);
    assert JumpClosed(grid, startNode, pathSet) by {
      forall c | c in pathSet && OnLattice(startNode, c) ensures Done(grid, pathSet, c) {
        assert Reached(grid, pathSet, frontier, {}, c);
      }
    }
    forall c | InBounds(grid, c) && OnLattice(startNode, c) ensures c in pathSet {
      LatticeCovered(grid, startNode, pathSet, c);
    }
    carved := pathSet;
    pathSet := pathSet + {finishNode};
    resultWalls := CollectWalls(grid, pathSet, staysWall);
  }
}
