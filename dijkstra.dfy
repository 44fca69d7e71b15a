/** `dijkstra(grid, startNode, finishNode)` (algorithms.js, lines 55-82).

    The proofs compare the grid at two moments of a run through `View`, the
    grid's nodes as a value; the invariant is stated on that value. */
module Dijkstra {
  import opened Wrappers
  import opened Nodes
  import opened Helpers
  import opened Sorting
  import opened Trees

  /** A neighbour after one pass of the relaxation loop from the node `from`,
      whose distance is `d`: an unvisited neighbour takes the route through
      `from` when that is strictly shorter. */
  function Relaxed(n: Node, from: Cell, d: nat): (m: Node)
    ensures m == n.(distance := m.distance, previousNode := m.previousNode)
    ensures DistLe(m.distance, n.distance)
    ensures !n.isVisited ==> DistLe(m.distance, Fin(d + EffectiveWeight(n)))
    ensures m != n ==> m.distance == Fin(d + EffectiveWeight(n)) && m.previousNode == Some(from)
  {
    var newDist := d + EffectiveWeight(n);
    if !n.isVisited && DistLt(Fin(newDist), n.distance) then
      n.(distance := Fin(newDist), previousNode := Some(from))
    else n
  }

  lemma RelaxKeepsOtherFields(G1: map<Cell, Node>, G2: map<Cell, Node>, x: Cell, d: nat, ns: seq<Cell>)
    requires forall c :: c in G2 <==> c in G1
    requires forall c :: c in G1 ==> G2[c] == if c in ns then Relaxed(G1[c], x, d) else G1[c]
    ensures KeepsOtherFields(G1, G2)
  {
    forall c | c in G1 ensures c in G2 && OnlySearchFields(G1[c], G2[c]) {
      if c in ns {
        var m := Relaxed(G1[c], x, d);
        assert m == G1[c].(distance := m.distance, previousNode := m.previousNode);
      }
    }
  }

  /** The loop over the neighbours of the node just visited (lines 69-80). */
  method RelaxNeighbors(grid: array2<Node>, closestNode: Cell, d: nat, neighbors: seq<Cell>)
    modifies grid
    requires Distinct(neighbors) && AllInBounds(grid, neighbors)
    ensures forall r, c :: 0 <= r < grid.Length0 && 0 <= c < grid.Length1 ==>
      grid[r, c] == if Cell(r, c) in neighbors then Relaxed(old(grid[r, c]), closestNode, d) else old(grid[r, c])
    ensures forall c :: c in View(grid) <==> c in old(View(grid))
    ensures forall c :: c in old(View(grid)) ==>
      View(grid)[c] == if c in neighbors then Relaxed(old(View(grid))[c], closestNode, d) else old(View(grid))[c]
  {
    for k := 0 to |neighbors|
      invariant forall r, c :: 0 <= r < grid.Length0 && 0 <= c < grid.Length1 ==>
        grid[r, c] == if Cell(r, c) in neighbors[..k] then Relaxed(old(grid[r, c]), closestNode, d) else old(grid[r, c])
    {
      var neighbor := neighbors[k];
      assert neighbor !in neighbors[..k];
      var node := grid[neighbor.row, neighbor.col];
      if !node.isVisited {
        var distanceToAdd := if node.weight == 0 then 1 else node.weight;
        var newDist := d + distanceToAdd;
        if DistLt(Fin(newDist), node.distance) {
          grid[neighbor.row, neighbor.col] := node.(distance := Fin(newDist), previousNode := Some(closestNode));
        }
      }
      assert neighbors[..k + 1] == neighbors[..k] + [neighbor];
    }
    assert neighbors[..|neighbors|] == neighbors;
  }

  /** The `previousNode` link of `c` is sound: it points to a visited open
      neighbour, and `c`'s distance is that neighbour's plus the cost of
      entering `c`. */
  ghost predicate LinkSound(G: map<Cell, Node>, c: Cell)
    requires c in G && G[c].previousNode.Some?
  {
    var p := G[c].previousNode.value;
    && p in G && G[p].isVisited && Adjacent(p, c)
    && !G[c].isWall && G[p].distance.Fin?
    && G[c].distance == Fin(G[p].distance.value + EffectiveWeight(G[c]))
  }

  /** Each cell occurs at most once in `s`. */
  ghost predicate NoDup(s: seq<Cell>) {
    forall c :: multiset(s)[c] <= 1
  }

  ghost predicate AllIn(G: map<Cell, Node>, s: seq<Cell>) {
    forall i :: 0 <= i < |s| ==> s[i] in G
  }

  /** The visited list `V` with the predecessor links: the visited cells are
      exactly `V`, open and at a finite distance, in nondecreasing distance;
      the start is first and has distance 0 and no predecessor; every other
      cell has a finite distance exactly when it has a predecessor, and every
      link is sound. */
  ghost predicate Links(G: map<Cell, Node>, start: Cell, V: seq<Cell>) {
    && start in G && AllIn(G, V) && Distinct(V)
    && (forall c :: c in G ==> (G[c].isVisited <==> c in V))
    && (forall c :: c in V ==> c in G && !G[c].isWall && G[c].distance.Fin?)
    && G[start].distance == Fin(0) && G[start].previousNode == None
    && (|V| > 0 ==> V[0] == start)
    && (forall c :: c in G && c != start ==> (G[c].distance.Fin? <==> G[c].previousNode.Some?))
    && (forall c {:trigger LinkSound(G, c)} :: c in G && G[c].previousNode.Some? ==> LinkSound(G, c))
    && (forall i, j :: 0 <= i < j < |V| ==> DistLe(G[V[i]].distance, G[V[j]].distance))
  }

  /** The unvisited list `U` beside the visited list `V`: disjoint, each cell
      once, together covering every open cell; no visited distance exceeds an
      unvisited one; the finish is not yet visited. */
  ghost predicate Queue(G: map<Cell, Node>, finish: Cell, U: seq<Cell>, V: seq<Cell>)
    requires AllIn(G, V)
  {
    && finish in G && AllIn(G, U) && NoDup(U)
    && (forall c :: c in U ==> c !in V)
    && (forall c :: c in G && !G[c].isWall ==> c in U || c in V)
    && (forall v, u :: v in V && u in U ==> DistLe(G[v].distance, G[u].distance))
    && finish !in V
  }

  /** Every open neighbour of a visited cell of `W` is visited or already
      relaxed through it. */
  ghost predicate RelaxedAround(G: map<Cell, Node>, W: seq<Cell>, V: seq<Cell>)
    requires forall c :: c in W ==> c in G && G[c].distance.Fin?
  {
    forall v, n :: v in W && n in G && Adjacent(v, n) && !G[n].isWall ==>
      n in V || DistLe(G[n].distance, Fin(G[v].distance.value + EffectiveWeight(G[n])))
  }

  /** Between two adjacent visited cells, the distance of either is at most
      the other's plus the cost of entering it. */
  ghost predicate Triangle(G: map<Cell, Node>, V: seq<Cell>)
    requires forall c :: c in V ==> c in G && G[c].distance.Fin?
  {
    forall u, v :: u in V && v in V && Adjacent(u, v) ==>
      G[v].distance.value <= G[u].distance.value + EffectiveWeight(G[v])
  }

  /** The loop invariant, with `U` the unvisited list and `V` the visited one. */
  ghost predicate Inv(G: map<Cell, Node>, start: Cell, finish: Cell, U: seq<Cell>, V: seq<Cell>) {
    && Links(G, start, V)
    && Queue(G, finish, U, V)
    && RelaxedAround(G, V, V)
    && Triangle(G, V)
  }

  /** `U` in nondecreasing distance. */
  ghost predicate SortedIn(G: map<Cell, Node>, U: seq<Cell>)
    requires AllIn(G, U)
  {
    forall i, j :: 0 <= i < j < |U| ==> DistLe(G[U[i]].distance, G[U[j]].distance)
  }

  /** The state right after line 58: only the start has a distance, and the
      unvisited list holds every cell once, row by row. */
  lemma InitialInv(G: map<Cell, Node>, start: Cell, finish: Cell, U: seq<Cell>)
    requires start in G && finish in G
    requires forall c :: c in G && c != start ==> CleanNode(G[c])
    requires G[start].distance == Fin(0) && !G[start].isVisited && G[start].previousNode == None
    requires AllIn(G, U) && forall c :: c in G ==> c in U
    requires forall i, j :: 0 <= i < j < |U| ==> RowMajorBefore(U[i], U[j])
    ensures Inv(G, start, finish, U, [])
  {
    forall i, j | 0 <= i < j < |U| ensures U[i] != U[j] {
      assert RowMajorBefore(U[i], U[j]);
    }
    DistinctNoDup(U);
  }

  lemma {:induction false} DistinctNoDup(s: seq<Cell>)
    requires Distinct(s)
    ensures NoDup(s)
  {
    if s != [] {
      assert s == [s[0]] + s[1..];
      assert Distinct(s[1..]) by {
        forall i, j | 0 <= i < j < |s[1..]| ensures s[1..][i] != s[1..][j] {
          assert s[i + 1] != s[j + 1];
        }
      }
      DistinctNoDup(s[1..]);
      assert s[0] !in s[1..];
      assert multiset(s) == multiset{s[0]} + multiset(s[1..]);
    }
  }

  /** Sorting the unvisited list changes only its order. */
  lemma SortKeepsInv(grid: array2<Node>, start: Cell, finish: Cell, U: seq<Cell>, V: seq<Cell>)
    requires Inv(View(grid), start, finish, U, V)
    ensures AllInBounds(grid, U)
    ensures Inv(View(grid), start, finish, SortBy(grid, ByDistance, U), V)
    ensures SortedIn(View(grid), SortBy(grid, ByDistance, U))
  {
    var G := View(grid);
    assert AllInBounds(grid, U);
    var S := SortBy(grid, ByDistance, U);
    assert forall c :: c in S <==> c in U by {
      forall c ensures c in S <==> c in U {
        assert c in S <==> c in multiset(S);
        assert c in U <==> c in multiset(U);
      }
    }
    forall i, j | 0 <= i < j < |S| ensures DistLe(G[S[i]].distance, G[S[j]].distance) {
      assert DistLe(Key(grid, ByDistance, S[i]), Key(grid, ByDistance, S[j]));
    }
  }

  /** Removing the head of a list without repeats. */
  lemma SplitHead(U: seq<Cell>)
    requires U != [] && NoDup(U)
    ensures NoDup(U[1..]) && U[0] !in U[1..]
    ensures forall c :: c in U <==> c == U[0] || c in U[1..]
  {
    assert U == [U[0]] + U[1..];
    assert multiset(U) == multiset{U[0]} + multiset(U[1..]);
    assert multiset(U)[U[0]] == 1 + multiset(U[1..])[U[0]];
    forall c ensures multiset(U[1..])[c] <= 1 {
      assert multiset(U)[c] >= multiset(U[1..])[c];
    }
    forall c ensures c in U <==> c == U[0] || c in U[1..] {
      assert c in U <==> c in multiset(U);
    }
  }

  /** A wall taken off the unvisited list is dropped (line 62). */
  lemma DropWallKeepsInv(G: map<Cell, Node>, start: Cell, finish: Cell, U: seq<Cell>, V: seq<Cell>)
    requires Inv(G, start, finish, U, V) && U != [] && G[U[0]].isWall
    ensures Inv(G, start, finish, U[1..], V)
  {
    SplitHead(U);
  }

  /** A sorted list headed by `Infinity` holds nothing else. */
  lemma InfinityHeadAll(G: map<Cell, Node>, U: seq<Cell>)
    requires AllIn(G, U) && SortedIn(G, U) && U != [] && G[U[0]].distance == Inf
    ensures forall u :: u in U ==> G[u].distance == Inf
  {
    forall u | u in U ensures G[u].distance == Inf {
      var i :| 0 <= i < |U| && U[i] == u;
      if i > 0 {
        assert DistLe(G[U[0]].distance, G[U[i]].distance);
      }
    }
  }

  /** When the closest unvisited node is at distance `Infinity` (line 63),
      the visited cells are closed under open neighbours, so an open finish
      that is not among them cannot be reached from an open start. */
  lemma InfinityHeadSeparates(grid: array2<Node>, start: Cell, finish: Cell, U: seq<Cell>, V: seq<Cell>)
    requires Inv(View(grid), start, finish, U, V) && SortedIn(View(grid), U)
    requires U != [] && View(grid)[U[0]].distance == Inf
    requires !At(grid, start).isWall && !At(grid, finish).isWall
    ensures !Reachable(grid, start, finish)
  {
    var G := View(grid);
    var S := set c | c in V;
    InfinityHeadAll(G, U);
    assert start in S;
    forall c, n | c in S && InBounds(grid, n) && Adjacent(c, n) && !At(grid, n).isWall ensures n in S {
      assert c in V && n in G;
    }
    ClosedSetSeparates(grid, S, start, finish);
  }

  /** Marking the closest node `x` visited (lines 65-66) keeps the links,
      the lists and the closure around the cells visited before. */
  lemma MarkKeepsInv(G0: map<Cell, Node>, G1: map<Cell, Node>, start: Cell, finish: Cell, U: seq<Cell>, V: seq<Cell>)
    requires Inv(G0, start, finish, U, V) && SortedIn(G0, U)
    requires U != [] && !G0[U[0]].isWall && G0[U[0]].distance.Fin?
    requires G1 == G0[U[0] := G0[U[0]].(isVisited := true)]
    ensures Links(G1, start, V + [U[0]])
    ensures U[0] != finish ==> Queue(G1, finish, U[1..], V + [U[0]])
    ensures RelaxedAround(G1, V, V + [U[0]]) && Triangle(G1, V + [U[0]])
    ensures forall n :: n in G1 && !G1[n].isWall && n !in V + [U[0]] ==> DistLe(G1[U[0]].distance, G1[n].distance)
  {
    SplitHead(U);
    MarkKeepsLinks(G0, G1, start, finish, U, V);
    MarkKeepsTriangle(G0, G1, start, finish, U, V);
    forall n | n in G1 && !G1[n].isWall && n !in V + [U[0]] ensures DistLe(G1[U[0]].distance, G1[n].distance) {
      var i :| 0 <= i < |U| && U[i] == n;
      assert i > 0;
    }
    if U[0] != finish {
      MarkKeepsQueue(G0, G1, start, finish, U, V);
    }
  }

  /** The node `x` just visited is no farther than a visited neighbour plus
      its own weight, since that neighbour relaxed it, and no nearer than
      any visited neighbour, since it was visited last. */
  lemma MarkKeepsTriangle(G0: map<Cell, Node>, G1: map<Cell, Node>, start: Cell, finish: Cell, U: seq<Cell>, V: seq<Cell>)
    requires Inv(G0, start, finish, U, V)
    requires U != [] && !G0[U[0]].isWall && G0[U[0]].distance.Fin?
    requires G1 == G0[U[0] := G0[U[0]].(isVisited := true)]
    requires Links(G1, start, V + [U[0]])
    ensures Triangle(G1, V + [U[0]])
  {
    var x := U[0];
    var V' := V + [x];
    assert forall c :: c in V' <==> c in V || c == x;
    forall u, v | u in V' && v in V' && Adjacent(u, v)
      ensures G1[v].distance.value <= G1[u].distance.value + EffectiveWeight(G1[v])
    {
      if v == x && u != x {
        assert x !in V;
      } else if u == x && v != x {
        assert DistLe(G0[v].distance, G0[x].distance);
      }
    }
  }

  lemma MarkKeepsLinks(G0: map<Cell, Node>, G1: map<Cell, Node>, start: Cell, finish: Cell, U: seq<Cell>, V: seq<Cell>)
    requires Inv(G0, start, finish, U, V)
    requires U != [] && !G0[U[0]].isWall && G0[U[0]].distance.Fin?
    requires G1 == G0[U[0] := G0[U[0]].(isVisited := true)]
    ensures Links(G1, start, V + [U[0]])
  {
    var x := U[0];
    var V' := V + [x];
    assert x !in V;
    assert forall c :: c in V' <==> c in V || c == x;
    if x != start {
      assert LinkSound(G0, x);
    }
    forall c | c in G1 && G1[c].previousNode.Some? ensures LinkSound(G1, c) {
      assert LinkSound(G0, c);
    }
    forall i, j | 0 <= i < j < |V'| ensures DistLe(G1[V'[i]].distance, G1[V'[j]].distance) {
      if j == |V| {
        assert V'[i] in V;
      }
    }
  }

  lemma MarkKeepsQueue(G0: map<Cell, Node>, G1: map<Cell, Node>, start: Cell, finish: Cell, U: seq<Cell>, V: seq<Cell>)
    requires Inv(G0, start, finish, U, V) && SortedIn(G0, U)
    requires U != [] && U[0] != finish && G0[U[0]].distance.Fin?
    requires NoDup(U[1..]) && U[0] !in U[1..] && forall c :: c in U <==> c == U[0] || c in U[1..]
    requires G1 == G0[U[0] := G0[U[0]].(isVisited := true)]
    ensures Queue(G1, finish, U[1..], V + [U[0]])
  {
    var x := U[0];
    var V' := V + [x];
    assert forall c :: c in V' <==> c in V || c == x;
    forall v, u | v in V' && u in U[1..] ensures DistLe(G1[v].distance, G1[u].distance) {
      if v == x {
        var i :| 0 <= i < |U[1..]| && U[1..][i] == u;
        assert U[i + 1] == u;
      }
    }
  }

  /** Relaxing the open neighbours `ns` of the node `x` just visited
      (lines 69-80) restores the closure around `x` and keeps the rest. */
  lemma RelaxKeepsInv(G1: map<Cell, Node>, G2: map<Cell, Node>, start: Cell, finish: Cell,
                      rest: seq<Cell>, V: seq<Cell>, x: Cell, ns: seq<Cell>)
    requires Links(G1, start, V + [x]) && Queue(G1, finish, rest, V + [x])
    requires RelaxedAround(G1, V, V + [x]) && Triangle(G1, V + [x])
    requires Distinct(ns) && forall n :: n in ns <==> n in G1 && Adjacent(x, n) && !G1[n].isWall
    requires forall c :: c in G2 <==> c in G1
    requires forall c :: c in G1 ==> G2[c] == if c in ns then Relaxed(G1[c], x, G1[x].distance.value) else G1[c]
    ensures Inv(G2, start, finish, rest, V + [x])
  {
    var V' := V + [x];
    assert forall c :: c in V' <==> c in V || c == x;
    assert x !in ns;
    RelaxKeepsLinks(G1, G2, start, V', x, ns);
    forall v | v in V' ensures DistLe(G1[v].distance, G1[x].distance) {
      var i :| 0 <= i < |V'| && V'[i] == v;
      if i < |V| {
        assert V'[|V|] == x;
      }
    }
    RelaxKeepsQueue(G1, G2, start, finish, rest, V', x, ns);
    RelaxClosure(G1, G2, start, V, x, ns);
    forall v | v in V' ensures G2[v] == G1[v] {
    }
  }

  lemma RelaxKeepsLinks(G1: map<Cell, Node>, G2: map<Cell, Node>, start: Cell, V': seq<Cell>, x: Cell, ns: seq<Cell>)
    requires Links(G1, start, V') && x in V' && x !in ns
    requires forall c :: c in G2 <==> c in G1
    requires forall c :: c in G1 ==> G2[c] == if c in ns then Relaxed(G1[c], x, G1[x].distance.value) else G1[c]
    requires forall n :: n in ns ==> n in G1 && Adjacent(x, n) && !G1[n].isWall
    ensures Links(G2, start, V')
  {
    forall c | c in G2 && G2[c].previousNode.Some? ensures LinkSound(G2, c) {
      if G2[c] == G1[c] {
        assert LinkSound(G1, c);
      }
    }
  }

  lemma RelaxKeepsQueue(G1: map<Cell, Node>, G2: map<Cell, Node>, start: Cell, finish: Cell,
                        rest: seq<Cell>, V': seq<Cell>, x: Cell, ns: seq<Cell>)
    requires Links(G1, start, V') && Queue(G1, finish, rest, V') && x in V' && x !in ns
    requires forall c :: c in G2 <==> c in G1
    requires forall c :: c in G1 ==> G2[c] == if c in ns then Relaxed(G1[c], x, G1[x].distance.value) else G1[c]
    requires forall v :: v in V' ==> DistLe(G1[v].distance, G1[x].distance)
    requires Links(G2, start, V')
    ensures Queue(G2, finish, rest, V')
  {
    forall v, u | v in V' && u in rest ensures DistLe(G2[v].distance, G2[u].distance) {
      assert DistLe(G1[x].distance, G1[u].distance);
    }
  }

  lemma RelaxClosure(G1: map<Cell, Node>, G2: map<Cell, Node>, start: Cell, V: seq<Cell>, x: Cell, ns: seq<Cell>)
    requires Links(G1, start, V + [x]) && RelaxedAround(G1, V, V + [x]) && x !in ns
    requires forall n :: n in ns <==> n in G1 && Adjacent(x, n) && !G1[n].isWall
    requires forall c :: c in G2 <==> c in G1
    requires forall c :: c in G1 ==> G2[c] == if c in ns then Relaxed(G1[c], x, G1[x].distance.value) else G1[c]
    requires Links(G2, start, V + [x])
    ensures RelaxedAround(G2, V + [x], V + [x])
  {
    var V' := V + [x];
    assert forall c :: c in V' <==> c in V || c == x;
    forall v, n | v in V' && n in G2 && Adjacent(v, n) && !G2[n].isWall
      ensures n in V' || DistLe(G2[n].distance, Fin(G2[v].distance.value + EffectiveWeight(G2[n])))
    {
      if v == x && n !in V' {
        assert n in ns;
      }
    }
  }

  /** The visited cells ranked by their distances: every visited cell but
      the start links back to a visited neighbour strictly nearer the start,
      since entering a cell costs at least 1. */
  lemma LinksTree(G: map<Cell, Node>, start: Cell, V: seq<Cell>) returns (S: set<Cell>, rank: map<Cell, nat>)
    requires Links(G, start, V) && start in V
    ensures (forall c :: c in S <==> c in V) && Tree(G, Back, start, S, rank)
  {
    S := set c | c in V;
    rank := map c | c in V :: G[c].distance.value;
    forall c | c in S && c != start ensures Linked(G, Back, S, rank, c) {
      assert LinkSound(G, c);
    }
  }

  /** `Links` read back on the grid itself. */
  lemma LinksOnGrid(grid: array2<Node>, start: Cell, V: seq<Cell>)
    requires Links(View(grid), start, V)
    ensures Distinct(V) && NoWalls(grid, V)
    ensures forall c :: InBounds(grid, c) ==> (At(grid, c).isVisited <==> c in V)
    ensures forall i, j :: 0 <= i < j < |V| ==> DistLe(At(grid, V[i]).distance, At(grid, V[j]).distance)
  {
    var G := View(grid);
    forall i | 0 <= i < |V| ensures InBounds(grid, V[i]) && !At(grid, V[i]).isWall {
      assert V[i] in G;
    }
  }

  /** Lines 65-80: visit the closest node `x`, the head of the sorted
      unvisited list `U`; return the path when `x` is the finish, and
      otherwise relax its open unvisited neighbours. */
  method VisitClosest(grid: array2<Node>, startNode: Cell, finishNode: Cell, x: Cell, ghost U: seq<Cell>,
                      visitedNodesInOrder: seq<Cell>)
    returns (visited: seq<Cell>, path: Option<seq<Cell>>)
    modifies grid
    requires Inv(View(grid), startNode, finishNode, U, visitedNodesInOrder) && SortedIn(View(grid), U)
    requires U != [] && x == U[0] && !View(grid)[x].isWall && View(grid)[x].distance.Fin?
    ensures visited == visitedNodesInOrder + [x]
    ensures KeepsOtherFields(old(View(grid)), View(grid))
    ensures path.Some? <==> x == finishNode
    ensures path.Some? ==>
      && Settled(View(grid), startNode, visitedNodesInOrder, x)
      && IsPath(grid, path.value, startNode, finishNode) && Distinct(path.value)
      && (forall c :: c in path.value ==> c in visited)
      && At(grid, finishNode).distance == Fin(PathCost(grid, path.value))
    ensures path.None? ==> Inv(View(grid), startNode, finishNode, U[1..], visited)
  {
    ghost var G0 := View(grid);
    MarkVisited(grid, x);
    visited := visitedNodesInOrder + [x];
    ghost var G1 := View(grid);
    MarkKeepsInv(G0, G1, startNode, finishNode, U, visitedNodesInOrder);
    if x == finishNode {
      ghost var S, rank := LinksTree(G1, startNode, visited);
      var p := TracePath(grid, startNode, finishNode, S, rank);
      DistanceChain(grid, startNode, visited, p);
      assert KeepsOtherFields(G0, G1);
      return visited, Some(p);
    }
    assert KeepsOtherFields(G0, G1);
    RelaxAround(grid, startNode, finishNode, x, U[1..], visitedNodesInOrder);
    KeepsOtherFieldsTrans(G0, G1, View(grid));
    return visited, None;
  }

  /** Lines 68-80: relax the open unvisited neighbours of `x`, the node just
      visited after `V`, with `rest` still unvisited. */
  method RelaxAround(grid: array2<Node>, startNode: Cell, finishNode: Cell, x: Cell, ghost rest: seq<Cell>,
                     ghost V: seq<Cell>)
    modifies grid
    requires Links(View(grid), startNode, V + [x]) && Queue(View(grid), finishNode, rest, V + [x])
    requires RelaxedAround(View(grid), V, V + [x]) && Triangle(View(grid), V + [x])
    ensures KeepsOtherFields(old(View(grid)), View(grid))
    ensures Inv(View(grid), startNode, finishNode, rest, V + [x])
  {
    ghost var G1 := View(grid);
    assert x in V + [x];
    var node := At(grid, x);
    var neighbors := GetNeighbors(grid, x);
    NeighborsDistinct(grid, x);
    RelaxNeighbors(grid, x, node.distance.value, neighbors);
    ghost var G2 := View(grid);
    RelaxKeepsOtherFields(G1, G2, x, node.distance.value, neighbors);
    RelaxKeepsInv(G1, G2, startNode, finishNode, rest, V, x, neighbors);
  }

  /** The visited cells come out in nondecreasing distance. */
  ghost predicate DistanceOrdered(grid: array2<Node>, V: seq<Cell>)
    reads grid
  {
    forall i, j :: 0 <= i < j < |V| && InBounds(grid, V[i]) && InBounds(grid, V[j]) ==>
      DistLe(At(grid, V[i]).distance, At(grid, V[j]).distance)
  }

  /** Line 67: the finish was just visited after `before` and its path read
      back; the path costs the finish's distance, which no walk undercuts. */
  lemma FoundResult(grid: array2<Node>, start: Cell, finish: Cell, before: seq<Cell>, V: seq<Cell>, path: seq<Cell>)
    requires V == before + [finish] && Settled(View(grid), start, before, finish)
    requires IsPath(grid, path, start, finish) && Distinct(path) && (forall c :: c in path ==> c in V)
    requires At(grid, finish).distance == Fin(PathCost(grid, path))
    ensures SoundResult(grid, start, finish, SearchResult(V, path))
    ensures CompleteResult(grid, start, finish, SearchResult(V, path))
    ensures VisitedExactly(grid, V) && DistanceOrdered(grid, V)
    ensures LeastCost(grid, start, finish, SearchResult(V, path))
  {
    LinksOnGrid(grid, start, V);
    forall p | IsPath(grid, p, start, finish) ensures PathCost(grid, path) <= PathCost(grid, p) {
      SettledBound(grid, start, before, finish, p);
    }
  }

  /** The state right after the finish `x` is visited after `V`: the links
      and the triangle bound hold of the visited cells, every open unvisited
      neighbour of a cell of `V` is relaxed through it, and no open unvisited
      cell is nearer than `x`. */
  ghost predicate Settled(G: map<Cell, Node>, start: Cell, V: seq<Cell>, x: Cell) {
    && Links(G, start, V + [x])
    && RelaxedAround(G, V, V + [x])
    && Triangle(G, V + [x])
    && (forall n :: n in G && !G[n].isWall && n !in V + [x] ==> DistLe(G[x].distance, G[n].distance))
  }

  /** Following the `previousNode` links back along `path` adds up its
      weights: the distance of its last node is that of its first plus the
      cost of the walk. */
  lemma {:induction false} DistanceChain(grid: array2<Node>, start: Cell, V: seq<Cell>, path: seq<Cell>)
    requires Links(View(grid), start, V) && |path| > 0 && path[0] in V
    requires forall i :: 0 <= i < |path| ==> InBounds(grid, path[i])
    requires forall i :: 0 <= i < |path| - 1 ==> At(grid, path[i + 1]).previousNode == Some(path[i])
    ensures At(grid, path[|path| - 1]).distance == Fin(At(grid, path[0]).distance.value + PathCost(grid, path))
  {
    if |path| > 1 {
      var init := path[..|path| - 1];
      DistanceChain(grid, start, V, init);
      var last := path[|path| - 1];
      assert LinkSound(View(grid), last);
    }
  }

  /** Along a walk from the start whose cells are visited up to index `i`,
      the triangle bound adds up: the walk up to there costs at least the
      distance of its `i`th cell. */
  lemma {:induction false} VisitedPrefixCost(grid: array2<Node>, start: Cell, W: seq<Cell>, p: seq<Cell>, i: nat)
    requires Links(View(grid), start, W) && Triangle(View(grid), W)
    requires i < |p| && p[0] == start
    requires forall k :: 0 <= k < |p| ==> InBounds(grid, p[k])
    requires forall k :: 0 <= k < |p| - 1 ==> Adjacent(p[k], p[k + 1])
    requires forall k :: 0 <= k <= i ==> p[k] in W
    ensures At(grid, p[i]).distance.value <= PathCost(grid, p[..i + 1])
  {
    if i > 0 {
      VisitedPrefixCost(grid, start, W, p, i - 1);
      assert p[..i + 1][..i] == p[..i];
      assert Adjacent(p[i - 1], p[i]);
    }
  }

  /** No walk from the start to the settled finish `x` costs less than its
      distance: the walk either stays on visited cells, where the triangle
      bound adds up, or first leaves them for an open cell that was relaxed
      and is no nearer than `x`. */
  lemma SettledBound(grid: array2<Node>, start: Cell, V: seq<Cell>, x: Cell, p: seq<Cell>)
    requires Settled(View(grid), start, V, x)
    requires IsPath(grid, p, start, x)
    ensures At(grid, x).distance.value <= PathCost(grid, p)
  {
    var G := View(grid);
    var W := V + [x];
    assert W[0] == start;
    var j := 0;
    while j < |p| && p[j] in W
      invariant 0 <= j <= |p|
      invariant forall k :: 0 <= k < j ==> p[k] in W
    {
      j := j + 1;
    }
    if j == |p| {
      VisitedPrefixCost(grid, start, W, p, |p| - 1);
      assert p[..|p|] == p;
    } else {
      assert 0 < j < |p| - 1;
      VisitedPrefixCost(grid, start, W, p, j - 1);
      var u, n := p[j - 1], p[j];
      assert Adjacent(u, n) && !At(grid, n).isWall && n in G;
      assert p[..j + 1][..j] == p[..j];
      PrefixCostLe(grid, p, j + 1);
      if u == x {
        PrefixCostLe(grid, p, j);
      } else {
        assert u in V && n !in W;
        assert DistLe(G[n].distance, Fin(G[u].distance.value + EffectiveWeight(G[n])));
      }
    }
  }

  /** A returned path costs the finish's distance, and no walk from the
      start to the finish costs less. */
  ghost predicate LeastCost(grid: array2<Node>, start: Cell, finish: Cell, r: SearchResult)
    reads grid
  {
    r.path != [] && IsPath(grid, r.path, start, finish) ==>
      && At(grid, finish).distance == Fin(PathCost(grid, r.path))
      && forall p :: IsPath(grid, p, start, finish) ==> PathCost(grid, r.path) <= PathCost(grid, p)
  }

  /** Line 63: the closest unvisited node is at distance `Infinity`. An open
      start was visited, the finish was not, and no walk reaches it. */
  lemma StoppedResult(grid: array2<Node>, start: Cell, finish: Cell, U: seq<Cell>, V: seq<Cell>)
    requires Inv(View(grid), start, finish, U, V) && SortedIn(View(grid), U)
    requires U != [] && View(grid)[U[0]].distance == Inf
    ensures SoundResult(grid, start, finish, SearchResult(V, []))
    ensures CompleteResult(grid, start, finish, SearchResult(V, []))
    ensures VisitedExactly(grid, V) && DistanceOrdered(grid, V)
    ensures !At(grid, start).isWall ==> |V| > 0
  {
    var G := View(grid);
    LinksOnGrid(grid, start, V);
    InfinityHeadAll(G, U);
    assert start !in U;
    if !At(grid, start).isWall {
      if !At(grid, finish).isWall {
        InfinityHeadSeparates(grid, start, finish, U, V);
      }
    }
  }

  /** What a finished run promises: a sound and complete result whose
      visited cells are exactly the nodes flagged visited, in nondecreasing
      distance, starting with an open start. */
  ghost predicate Outcome(grid: array2<Node>, start: Cell, finish: Cell, r: SearchResult)
    reads grid
  {
    && SoundResult(grid, start, finish, r) && CompleteResult(grid, start, finish, r)
    && VisitedExactly(grid, r.visitedNodesInOrder) && DistanceOrdered(grid, r.visitedNodesInOrder)
    && (InBounds(grid, start) && !At(grid, start).isWall ==> |r.visitedNodesInOrder| > 0)
    && LeastCost(grid, start, finish, r)
  }

  /** Lines 60-80, one pass of the main loop: sort the unvisited list, take
      its head, and skip it, stop, or visit it. */
  method ClosestPass(grid: array2<Node>, startNode: Cell, finishNode: Cell, unvisitedNodes: seq<Cell>,
                     visitedNodesInOrder: seq<Cell>)
    returns (unvisited: seq<Cell>, visited: seq<Cell>, result: Option<SearchResult>)
    modifies grid
    requires InBounds(grid, startNode)
    requires Inv(View(grid), startNode, finishNode, unvisitedNodes, visitedNodesInOrder) && unvisitedNodes != []
    ensures KeepsOtherFields(old(View(grid)), View(grid))
    ensures |unvisited| < |unvisitedNodes|
    ensures result.None? ==> Inv(View(grid), startNode, finishNode, unvisited, visited)
    ensures result.Some? ==> Outcome(grid, startNode, finishNode, result.value)
  {
    SortKeepsInv(grid, startNode, finishNode, unvisitedNodes, visitedNodesInOrder);
    var sorted := SortBy(grid, ByDistance, unvisitedNodes);
    var closestNode := sorted[0];
    unvisited, visited := sorted[1..], visitedNodesInOrder;
    var node := At(grid, closestNode);
    if node.isWall {
      DropWallKeepsInv(View(grid), startNode, finishNode, sorted, visitedNodesInOrder);
      return unvisited, visited, None;
    }
    if node.distance == Inf {
      StoppedResult(grid, startNode, finishNode, sorted, visitedNodesInOrder);
      return unvisited, visited, Some(SearchResult(visitedNodesInOrder, []));
    }
    var path;
    visited, path := VisitClosest(grid, startNode, finishNode, closestNode, sorted, visitedNodesInOrder);
    if path.Some? {
      FoundResult(grid, startNode, finishNode, visitedNodesInOrder, visited, path.value);
      return unvisited, visited, Some(SearchResult(visited, path.value));
    }
    return unvisited, visited, None;
  }

  method Dijkstra(grid: array2<Node>, startNode: Cell, finishNode: Cell) returns (result: Option<SearchResult>)
    modifies grid
    requires InBounds(grid, startNode) && InBounds(grid, finishNode)
    requires Clean(grid) && Shaped(grid)
    ensures KeepsOtherFields(old(View(grid)), View(grid))
    ensures result.None? ==> At(grid, finishNode).isWall
    ensures result.Some? ==> Outcome(grid, startNode, finishNode, result.value)
  {
    ghost var G0 := View(grid);
    var visitedNodesInOrder: seq<Cell> := [];
    grid[startNode.row, startNode.col] := grid[startNode.row, startNode.col].(distance := Fin(0));
    var unvisitedNodes := GetAllNodes(grid);
    assert View(grid) == G0[startNode := G0[startNode].(distance := Fin(0))];
    InitialInv(View(grid), startNode, finishNode, unvisitedNodes);
    while |unvisitedNodes| > 0
      invariant KeepsOtherFields(G0, View(grid))
      invariant Inv(View(grid), startNode, finishNode, unvisitedNodes, visitedNodesInOrder)
      decreases |unvisitedNodes|
    {
      ghost var G := View(grid);
      var found;
      unvisitedNodes, visitedNodesInOrder, found :=
        ClosestPass(grid, startNode, finishNode, unvisitedNodes, visitedNodesInOrder);
      KeepsOtherFieldsTrans(G0, G, View(grid));
      if found.Some? {
        return found;
      }
    }
    return None;
  }
}
