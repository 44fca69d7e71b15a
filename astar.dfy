/** `aStar(grid, startNode, finishNode)` (algorithms.js, lines 84-117): a
    best-first search on `f = g + h`, with `g` the cost of the best walk
    found so far and `h` the Manhattan distance to the finish, cached on the
    node. It marks a node when it takes it off the open list and never opens
    a visited node, so it never takes a visited node off the list; it keeps
    the open list free of repeats by pushing a node only when it is not
    already on it, so the frontier invariant of `dfs` and `greedyBestFirst`
    holds of it too. */
module AStar {
  import opened Wrappers
  import opened Nodes
  import opened Helpers
  import opened Trees
  import opened Sorting
  import opened Frontier

  /** `neighbor.h || manhattanDistance(neighbor, finishNode)`: the cached
      heuristic, computed on first use. */
  function CachedH(n: Node, c: Cell, finish: Cell): nat {
    if n.h == 0 then ManhattanDistance(c, finish) else n.h
  }

  /** Caching is idempotent: a node holding its cached heuristic reads the
      same value again. */
  lemma CachedHStable(n: Node, c: Cell, finish: Cell)
    ensures CachedH(n.(h := CachedH(n, c, finish)), c, finish) == CachedH(n, c, finish)
    ensures n.h == 0 || n.h == ManhattanDistance(c, finish) ==> CachedH(n, c, finish) == ManhattanDistance(c, finish)
  {
  }

  /** `G1` is `G0` with at most `g`, `h`, `f`, `isVisited` and `previousNode`
      changed: the fields `aStar` writes. */
  ghost predicate ScoresOnly(G0: map<Cell, Node>, G1: map<Cell, Node>) {
    forall c :: c in G0 ==>
      && c in G1
      && G1[c] == G0[c].(g := G1[c].g, h := G1[c].h, f := G1[c].f, isVisited := G1[c].isVisited,
                         previousNode := G1[c].previousNode)
  }

  lemma ScoresOnlyTrans(G0: map<Cell, Node>, G1: map<Cell, Node>, G2: map<Cell, Node>)
    requires ScoresOnly(G0, G1) && ScoresOnly(G1, G2)
    ensures ScoresOnly(G0, G2)
  {
  }

  /** The scores `aStar` leaves, against the grid `G0` it started from: the
      start has `g == 0` and `f` its heuristic; every other node it opened
      (one with a `previousNode`) holds its cached heuristic in `h` and
      `f == g + h`; a node it did not open keeps its `h`. */
  ghost predicate Scores(G0: map<Cell, Node>, G: map<Cell, Node>, start: Cell, finish: Cell) {
    && start in G && G[start].g == 0 && G[start].f == ManhattanDistance(start, finish)
    && (forall c :: c in G0 && c in G && c != start && G[c].previousNode.Some? ==>
          G[c].h == CachedH(G0[c], c, finish) && G[c].f == G[c].g + G[c].h)
    && (forall c :: c in G0 && c in G && c != start && G[c].previousNode.None? ==> G[c].h == G0[c].h)
  }

  /** Every `previousNode` link points to a visited node whose `g` plus the
      weight of the linked node is the linked node's `g`. */
  ghost predicate GChain(G: map<Cell, Node>, VS: set<Cell>) {
    forall c {:trigger G[c].previousNode} :: c in G && G[c].previousNode.Some? ==>
      && G[c].previousNode.value in VS && G[c].previousNode.value in G
      && G[c].g == G[G[c].previousNode.value].g + EffectiveWeight(G[c])
  }

  /** No cell is on the list twice, and none is visited. */
  ghost predicate OpenFresh(G: map<Cell, Node>, openSet: seq<Cell>) {
    && (forall x :: multiset(openSet)[x] <= 1)
    && (forall x :: x in openSet ==> x in G && !G[x].isVisited)
  }

  /** Following the `previousNode` links back along `path` adds up its
      weights: the `g` of its last node is the `g` of its first plus the cost
      of the walk. */
  lemma {:induction false} ChainCost(grid: array2<Node>, VS: set<Cell>, path: seq<Cell>)
    requires GChain(View(grid), VS) && |path| > 0
    requires forall i :: 0 <= i < |path| ==> InBounds(grid, path[i])
    requires forall i :: 0 <= i < |path| - 1 ==> At(grid, path[i + 1]).previousNode == Some(path[i])
    ensures At(grid, path[|path| - 1]).g == At(grid, path[0]).g + PathCost(grid, path)
  {
    if |path| > 1 {
      var init := path[..|path| - 1];
      ChainCost(grid, VS, init);
      var last := path[|path| - 1];
      assert View(grid)[last].previousNode == Some(init[|init| - 1]);
    }
  }

  /** Every heuristic cached on the grid is unset or the Manhattan distance
      to the finish, as on a page whose finish never moves. */
  ghost predicate ManhattanCached(G: map<Cell, Node>, finish: Cell) {
    forall c :: c in G ==> G[c].h == 0 || G[c].h == ManhattanDistance(c, finish)
  }

  /** `f` is `g` plus the Manhattan distance on every visited or open node. */
  ghost predicate FScored(G: map<Cell, Node>, finish: Cell, VS: set<Cell>, F: seq<Cell>) {
    forall c :: c in G && (c in VS || c in F) ==> G[c].f == G[c].g + ManhattanDistance(c, finish)
  }

  /** Between two adjacent visited nodes, the `g` of either is at most the
      other's plus its own weight. */
  ghost predicate GTriangle(G: map<Cell, Node>, VS: set<Cell>) {
    forall u, v :: u in G && v in G && u in VS && v in VS && Adjacent(u, v) ==>
      G[v].g <= G[u].g + EffectiveWeight(G[v])
  }

  /** Every open neighbour outside `VS` of a node of `W` has a `g` at most
      that node's plus its own weight. */
  ghost predicate GRelaxed(G: map<Cell, Node>, W: set<Cell>, VS: set<Cell>) {
    forall v, n :: v in G && n in G && v in W && n !in VS && Adjacent(v, n) && !G[n].isWall ==>
      G[n].g <= G[v].g + EffectiveWeight(G[n])
  }

  /** No visited node has a larger `f` than an open one. */
  ghost predicate FOrdered(G: map<Cell, Node>, VS: set<Cell>, F: seq<Cell>) {
    forall v, o :: v in G && o in G && v in VS && o in F ==> G[v].f <= G[o].f
  }

  /** Between passes, with `VS` visited and `F` the open list, when the
      cached heuristics are Manhattan distances: a step changes the
      Manhattan distance by at most 1 and costs at least 1, so `h` is
      consistent, nodes leave the list in nondecreasing `f`, and the `g`
      of a visited node is never beaten by a walk. */
  ghost predicate Optimal(G: map<Cell, Node>, finish: Cell, VS: set<Cell>, F: seq<Cell>) {
    && ManhattanCached(G, finish) && FScored(G, finish, VS, F)
    && GTriangle(G, VS) && GRelaxed(G, VS, VS) && FOrdered(G, VS, F)
  }

  /** The same right after `c`, whose `f` is least on the list, is taken off
      it and marked visited, leaving `rest`; `c` is not yet expanded. */
  ghost predicate OptimalMarked(G: map<Cell, Node>, finish: Cell, VS: set<Cell>, c: Cell, rest: seq<Cell>) {
    && ManhattanCached(G, finish) && FScored(G, finish, VS + {c}, rest)
    && GTriangle(G, VS + {c}) && GRelaxed(G, VS, VS + {c}) && FOrdered(G, VS + {c}, rest)
    && (forall v :: v in G && v in VS && c in G ==> G[v].f <= G[c].f)
  }

  /** A step changes the Manhattan distance to the finish by at most 1. */
  lemma StepManhattan(a: Cell, b: Cell, finish: Cell)
    requires Adjacent(a, b)
    ensures ManhattanDistance(a, finish) <= ManhattanDistance(b, finish) + 1
  {
    ManhattanTriangle(a, b, finish);
  }

  /** Lines 86-88 start the invariant: only the start is open, with `g == 0`
      and `f` its Manhattan distance. */
  lemma OptimalInitial(G: map<Cell, Node>, start: Cell, finish: Cell)
    requires start in G && G[start].g == 0 && G[start].f == ManhattanDistance(start, finish)
    requires ManhattanCached(G, finish)
    ensures Optimal(G, finish, {}, [start])
  {
  }

  /** A wall taken off the list leaves the invariant on the rest. */
  lemma OptimalSkip(G: map<Cell, Node>, finish: Cell, VS: set<Cell>, F: seq<Cell>, rest: seq<Cell>)
    requires Optimal(G, finish, VS, F) && forall x :: x in rest ==> x in F
    ensures Optimal(G, finish, VS, rest)
  {
  }

  /** Marking the node `c` of least `f` (lines 92-96): it was relaxed by each
      visited neighbour, and no visited neighbour has a larger `f`, which
      with a consistent `h` bounds that neighbour's `g` by `c`'s plus its
      weight. */
  lemma OptimalMark(G: map<Cell, Node>, G1: map<Cell, Node>, finish: Cell, VS: set<Cell>, F: seq<Cell>,
                    rest: seq<Cell>, c: Cell)
    requires Optimal(G, finish, VS, F) && c in G && c in F && c !in VS && !G[c].isWall
    requires forall x :: x in F <==> x in rest || x == c
    requires forall x :: x in F && x in G ==> G[c].f <= G[x].f
    requires G1 == G[c := G[c].(isVisited := true)]
    ensures OptimalMarked(G1, finish, VS, c, rest)
  {
    forall u, v | u in G1 && v in G1 && u in VS + {c} && v in VS + {c} && Adjacent(u, v)
      ensures G1[v].g <= G1[u].g + EffectiveWeight(G1[v])
    {
      if u == c && v != c {
        assert G[v].f <= G[c].f;
        StepManhattan(c, v, finish);
      }
    }
  }

  /** One node through the relaxation loop from `c`, whose `g` is `gc`. */
  lemma RelaxedScore(n: Node, x: Cell, c: Cell, gc: nat, finish: Cell, ns: seq<Cell>, open: seq<Cell>)
    requires n.h == 0 || n.h == ManhattanDistance(x, finish)
    ensures var m := RelaxedIn(n, x, c, gc, finish, ns, open);
      && (m.h == 0 || m.h == ManhattanDistance(x, finish))
      && m.isWall == n.isWall && m.weight == n.weight && m.isVisited == n.isVisited
      && (n.isVisited || x !in ns ==> m == n)
      && (x in ns && !n.isVisited ==> m.g <= gc + EffectiveWeight(n))
      && (x in ns && !n.isVisited && x in open ==> m.g <= n.g)
      && (x in ns && !n.isVisited && (x !in open || m != n) ==>
            m.g == gc + EffectiveWeight(n) && m.f == m.g + ManhattanDistance(x, finish))
  {
  }

  /** Expanding `c` (lines 99-114) restores the invariant with `c` visited:
      its open neighbours are relaxed through it, and every `f` it writes is
      at least `c`'s, since the step costs at least the 1 by which it can
      lower the Manhattan distance. */
  lemma OptimalRelax(G1: map<Cell, Node>, G2: map<Cell, Node>, finish: Cell, VS: set<Cell>, c: Cell,
                     F: seq<Cell>, openSet: seq<Cell>, ns: seq<Cell>, openSet': seq<Cell>)
    requires OptimalMarked(G1, finish, VS, c, openSet) && c in G1 && c !in VS
    requires Closure(G1, VS, F) && (forall x :: x in F <==> x in openSet || x == c)
    requires forall x :: x in G1 ==> (G1[x].isVisited <==> x in VS + {c})
    requires forall n :: n in ns <==> n in G1 && Adjacent(c, n) && !G1[n].isWall
    requires forall x :: x in G2 <==> x in G1
    requires forall x :: x in G1 ==> G2[x] == RelaxedIn(G1[x], x, c, G1[c].g, finish, ns, openSet)
    requires forall x :: x in openSet' <==> x in openSet || (x in ns && !G1[x].isVisited && x !in openSet)
    ensures Optimal(G2, finish, VS + {c}, openSet')
  {
    var VS' := VS + {c};
    forall x | x in G1 {
      RelaxedScore(G1[x], x, c, G1[c].g, finish, ns, openSet);
    }
    forall v, n | v in G2 && n in G2 && v in VS' && n !in VS' && Adjacent(v, n) && !G2[n].isWall
      ensures G2[n].g <= G2[v].g + EffectiveWeight(G2[n])
    {
      if v != c {
        assert n in F;
      }
    }
    forall v, o | v in G2 && o in G2 && v in VS' && o in openSet' ensures G2[v].f <= G2[o].f {
      if o !in openSet || G2[o] != G1[o] {
        StepManhattan(c, o, finish);
      }
    }
  }

  /** Along a walk from the start whose cells are visited up to index `i`,
      the triangle bound adds up: the walk up to there costs at least the
      `g` of its `i`th cell. */
  lemma {:induction false} VisitedPrefixCost(grid: array2<Node>, start: Cell, W: set<Cell>, p: seq<Cell>, i: nat)
    requires GTriangle(View(grid), W) && InBounds(grid, start) && At(grid, start).g == 0
    requires i < |p| && p[0] == start
    requires forall k :: 0 <= k < |p| ==> InBounds(grid, p[k])
    requires forall k :: 0 <= k < |p| - 1 ==> Adjacent(p[k], p[k + 1])
    requires forall k :: 0 <= k <= i ==> p[k] in W
    ensures At(grid, p[i]).g <= PathCost(grid, p[..i + 1])
  {
    if i > 0 {
      VisitedPrefixCost(grid, start, W, p, i - 1);
      assert p[..i + 1][..i] == p[..i];
      assert Adjacent(p[i - 1], p[i]);
    }
  }

  /** When the finish is taken off the list with the cached heuristics
      Manhattan distances, no walk from the start to it costs less than its
      `g`: the walk either stays on visited nodes, where the triangle bound
      adds up, or first leaves them for an open node whose `f`, its `g` plus
      a lower bound on the rest of the walk, is no less than the finish's. */
  lemma OptimalBound(grid: array2<Node>, start: Cell, finish: Cell, VS: set<Cell>, F: seq<Cell>, rest: seq<Cell>,
                     p: seq<Cell>)
    requires GTriangle(View(grid), VS + {finish}) && GRelaxed(View(grid), VS, VS + {finish})
    requires FScored(View(grid), finish, VS + {finish}, rest) && FOrdered(View(grid), VS + {finish}, rest)
    requires Closure(View(grid), VS, F) && (forall x :: x in F <==> x in rest || x == finish)
    requires start in VS + {finish} && InBounds(grid, start) && At(grid, start).g == 0
    requires IsPath(grid, p, start, finish)
    ensures At(grid, finish).g <= PathCost(grid, p)
  {
    var W := VS + {finish};
    var j := FirstOutside(p, W);
    if j == |p| {
      VisitedPrefixCost(grid, start, W, p, |p| - 1);
      assert p[..|p|] == p && p[|p| - 1] == finish;
    } else {
      LeavingBound(grid, start, finish, VS, F, rest, p, j);
    }
  }

  /** The walk first leaves the visited nodes and the finish at `p[j]`. */
  lemma LeavingBound(grid: array2<Node>, start: Cell, finish: Cell, VS: set<Cell>, F: seq<Cell>, rest: seq<Cell>,
                     p: seq<Cell>, j: nat)
    requires GTriangle(View(grid), VS + {finish}) && GRelaxed(View(grid), VS, VS + {finish})
    requires FScored(View(grid), finish, VS + {finish}, rest) && FOrdered(View(grid), VS + {finish}, rest)
    requires Closure(View(grid), VS, F) && (forall x :: x in F <==> x in rest || x == finish)
    requires start in VS + {finish} && InBounds(grid, start) && At(grid, start).g == 0
    requires IsPath(grid, p, start, finish)
    requires j < |p| && (forall k :: 0 <= k < j ==> p[k] in VS + {finish}) && p[j] !in VS + {finish}
    ensures At(grid, finish).g <= PathCost(grid, p)
  {
    var G := View(grid);
    assert 0 < j < |p| - 1;
    VisitedPrefixCost(grid, start, VS + {finish}, p, j - 1);
    var u, n := p[j - 1], p[j];
    assert Adjacent(u, n) && !At(grid, n).isWall && n in G && u in G;
    if u == finish {
      PrefixCostLe(grid, p, j);
    } else {
      assert n in rest;
      assert G[n].g <= G[u].g + EffectiveWeight(G[n]);
      assert G[n].f == G[n].g + ManhattanDistance(n, finish);
      assert G[finish].f == G[finish].g + ManhattanDistance(finish, finish);
      assert G[finish].f <= G[n].f;
      ThroughOpen(grid, start, finish, p, j);
    }
  }

  /** The first index of `p` outside `W`, or `|p|` when there is none. */
  lemma FirstOutside(p: seq<Cell>, W: set<Cell>) returns (j: nat)
    ensures j <= |p| && (forall k :: 0 <= k < j ==> p[k] in W) && (j < |p| ==> p[j] !in W)
  {
    j := 0;
    while j < |p| && p[j] in W
      invariant 0 <= j <= |p|
      invariant forall k :: 0 <= k < j ==> p[k] in W
    {
      j := j + 1;
    }
  }

  /** A walk to the finish that enters the open node `p[j]` from `p[j - 1]`,
      whose `g` bounds the walk so far: with `f` bounding the finish's `g`
      and the Manhattan distance bounding the rest of the walk, the whole
      walk costs at least the finish's `g`. */
  lemma ThroughOpen(grid: array2<Node>, start: Cell, finish: Cell, p: seq<Cell>, j: nat)
    requires IsPath(grid, p, start, finish) && 0 < j < |p|
    requires At(grid, p[j - 1]).g <= PathCost(grid, p[..j])
    requires At(grid, p[j]).g <= At(grid, p[j - 1]).g + EffectiveWeight(At(grid, p[j]))
    requires At(grid, p[j]).f == At(grid, p[j]).g + ManhattanDistance(p[j], finish)
    requires At(grid, finish).g <= At(grid, p[j]).f
    ensures At(grid, finish).g <= PathCost(grid, p)
  {
    DetourCost(grid, start, finish, p, j);
  }

  /** The path read back at the finish costs its `g`, so it is the cheapest
      walk from the start to the finish. */
  lemma LeastCost(grid: array2<Node>, start: Cell, finish: Cell, VS: set<Cell>, F: seq<Cell>, rest: seq<Cell>,
                  path: seq<Cell>)
    requires OptimalMarked(View(grid), finish, VS, finish, rest)
    requires Closure(View(grid), VS, F) && (forall x :: x in F <==> x in rest || x == finish)
    requires start in VS + {finish} && InBounds(grid, start) && At(grid, start).g == 0
    requires InBounds(grid, finish) && forall i :: 0 <= i < |path| ==> InBounds(grid, path[i])
    requires At(grid, finish).g == PathCost(grid, path)
    ensures forall p :: IsPath(grid, p, start, finish) ==> PathCost(grid, path) <= PathCost(grid, p)
  {
    forall p | IsPath(grid, p, start, finish) ensures PathCost(grid, path) <= PathCost(grid, p) {
      OptimalBound(grid, start, finish, VS, F, rest, p);
    }
  }

  /** A walk to the finish, split where it enters its `j`th cell: the cost
      up to the cell before, that cell's weight, and the rest, which costs
      at least the Manhattan distance from that cell to the finish. */
  lemma DetourCost(grid: array2<Node>, start: Cell, finish: Cell, p: seq<Cell>, j: nat)
    requires IsPath(grid, p, start, finish) && 0 < j < |p|
    ensures PathCost(grid, p) == PathCost(grid, p[..j]) + EffectiveWeight(At(grid, p[j])) + PathCost(grid, p[j..])
    ensures ManhattanDistance(p[j], finish) <= PathCost(grid, p[j..])
  {
    assert p[..j + 1][..j] == p[..j];
    PathCostSplit(grid, p, j);
    SuffixIsPath(grid, p, start, finish, j);
    ManhattanAdmissible(grid, p[j..], p[j], finish);
  }

  /** Lines 101-113 on one neighbour `n` at cell `c` of the node `from`,
      whose `g` is `gFrom`, `isOpen` telling whether it is on the open
      list: an unvisited neighbour that is not yet open, or that the walk
      through `from` reaches more cheaply, gets the new `g`, its cached `h`,
      `f = g + h` and a link back to `from`. */
  function Relaxed(n: Node, c: Cell, from: Cell, gFrom: nat, finish: Cell, isOpen: bool): Node {
    var t := gFrom + EffectiveWeight(n);
    if !n.isVisited && (!isOpen || t < n.g) then
      var h := CachedH(n, c, finish);
      n.(g := t, h := h, f := t + h, previousNode := Some(from))
    else n
  }

  /** The node `n` at cell `c` once the loop of lines 100-114 has run over
      the neighbours `ns`: relaxed if it is one of them. */
  function RelaxedIn(n: Node, c: Cell, from: Cell, gFrom: nat, finish: Cell, ns: seq<Cell>, open: seq<Cell>): Node {
    if c in ns then Relaxed(n, c, from, gFrom, finish, c in open) else n
  }

  /** The neighbours in `ns` neither visited in `G` nor on the open list, in
      order: the cells the loop pushes. */
  ghost function Fresh(G: map<Cell, Node>, ns: seq<Cell>, open: seq<Cell>): seq<Cell>
    requires forall i :: 0 <= i < |ns| ==> ns[i] in G
  {
    if ns == [] then []
    else
      var last := ns[|ns| - 1];
      Fresh(G, ns[..|ns| - 1], open) + (if G[last].isVisited || last in open then [] else [last])
  }

  /** The pushed cells are the unvisited neighbours not yet open, each once. */
  lemma {:induction false} FreshMembers(G: map<Cell, Node>, ns: seq<Cell>, open: seq<Cell>)
    requires forall i :: 0 <= i < |ns| ==> ns[i] in G
    requires Distinct(ns)
    ensures forall n :: n in Fresh(G, ns, open) <==> n in ns && !G[n].isVisited && n !in open
    ensures forall n :: multiset(Fresh(G, ns, open))[n] <= 1
  {
    if ns != [] {
      var init := ns[..|ns| - 1];
      var last := ns[|ns| - 1];
      FreshMembers(G, init, open);
      assert ns == init + [last];
      assert last !in init;
    }
  }

  lemma FreshStep(G: map<Cell, Node>, ns: seq<Cell>, open: seq<Cell>, k: nat)
    requires k < |ns| && forall i :: 0 <= i < |ns| ==> ns[i] in G
    ensures Fresh(G, ns[..k + 1], open) ==
      Fresh(G, ns[..k], open) + (if G[ns[k]].isVisited || ns[k] in open then [] else [ns[k]])
  {
    assert ns[..k + 1][..k] == ns[..k];
  }

  /** Lines 99-114: relax every unvisited open neighbour of `currentNode` and
      push the ones not yet on the open list. */
  method RelaxNeighbors(grid: array2<Node>, currentNode: Cell, finishNode: Cell, neighbors: seq<Cell>,
                        openSet: seq<Cell>)
    returns (openSet': seq<Cell>)
    modifies grid
    requires Distinct(neighbors) && AllInBounds(grid, neighbors)
    requires InBounds(grid, currentNode) && currentNode !in neighbors
    ensures openSet' == openSet + Fresh(old(View(grid)), neighbors, openSet)
    ensures forall x :: x in old(View(grid)) ==>
      View(grid)[x] == RelaxedIn(old(View(grid))[x], x, currentNode, old(View(grid))[currentNode].g, finishNode,
                                 neighbors, openSet)
  {
    ghost var G := View(grid);
    ghost var gFrom := G[currentNode].g;
    openSet' := openSet;
    for k := 0 to |neighbors|
      invariant openSet' == openSet + Fresh(G, neighbors[..k], openSet)
      invariant forall x :: x in G ==>
        View(grid)[x] == RelaxedIn(G[x], x, currentNode, gFrom, finishNode, neighbors[..k], openSet)
    {
      var neighbor := neighbors[k];
      ghost var Gk := View(grid);
      FreshStep(G, neighbors, openSet, k);
      FreshMembers(G, neighbors[..k], openSet);
      assert neighbor !in neighbors[..k] && Gk[neighbor] == G[neighbor];
      var inOpenSet := neighbor in openSet';
      assert inOpenSet <==> neighbor in openSet;
      ghost var piece := if G[neighbor].isVisited || neighbor in openSet then [] else [neighbor];
      openSet' := RelaxOne(grid, currentNode, finishNode, neighbor, inOpenSet, openSet');
      assert openSet' == openSet + (Fresh(G, neighbors[..k], openSet) + piece);
      RelaxedInStep(G, Gk, View(grid), currentNode, gFrom, finishNode, neighbors, openSet, k);
    }
    assert neighbors[..|neighbors|] == neighbors;
  }

  /** One more pass of the relaxation loop, read on the grid's values. */
  lemma RelaxedInStep(G: map<Cell, Node>, Gk: map<Cell, Node>, Gk1: map<Cell, Node>, from: Cell, gFrom: nat,
                      finish: Cell, ns: seq<Cell>, open: seq<Cell>, k: nat)
    requires k < |ns| && Distinct(ns) && from !in ns && ns[k] in G && from in G
    requires forall x :: x in G ==> x in Gk && Gk[x] == RelaxedIn(G[x], x, from, gFrom, finish, ns[..k], open)
    requires G[from].g == gFrom
    requires Gk1 == Gk[ns[k] := Relaxed(Gk[ns[k]], ns[k], from, Gk[from].g, finish, ns[k] in open)]
    ensures forall x :: x in G ==> x in Gk1 && Gk1[x] == RelaxedIn(G[x], x, from, gFrom, finish, ns[..k + 1], open)
  {
    assert ns[k] !in ns[..k] && from !in ns[..k];
    forall x | x in G
      ensures x in Gk1 && Gk1[x] == RelaxedIn(G[x], x, from, gFrom, finish, ns[..k + 1], open)
    {
      assert x in ns[..k + 1] <==> x in ns[..k] || x == ns[k];
    }
  }

  /** Lines 101-113 on the neighbour `neighbor`, with `inOpenSet` telling
      whether it is on the open list. */
  method RelaxOne(grid: array2<Node>, currentNode: Cell, finishNode: Cell, neighbor: Cell, inOpenSet: bool,
                  openSet: seq<Cell>)
    returns (openSet': seq<Cell>)
    modifies grid
    requires InBounds(grid, currentNode) && InBounds(grid, neighbor) && neighbor != currentNode
    ensures View(grid) == old(View(grid))[neighbor := Relaxed(old(View(grid))[neighbor], neighbor, currentNode,
                                                              old(View(grid))[currentNode].g, finishNode, inOpenSet)]
    ensures openSet' == openSet + (if old(At(grid, neighbor)).isVisited || inOpenSet then [] else [neighbor])
  {
    openSet' := openSet;
    var node := grid[neighbor.row, neighbor.col];
    if node.isVisited {
      return;
    }
    var distanceToAdd := EffectiveWeight(node);
    var tentativeG := grid[currentNode.row, currentNode.col].g + distanceToAdd;
    if !inOpenSet || tentativeG < node.g {
      var h := CachedH(node, neighbor, finishNode);
      grid[neighbor.row, neighbor.col] :=
        node.(g := tentativeG, h := h, f := tentativeG + h, previousNode := Some(currentNode));
      if !inOpenSet {
        openSet' := openSet' + [neighbor];
      }
    }
  }

  /** What the relaxation loop does to each node, read off `Relaxed`: a node
      that changes is an unvisited neighbour, now linked back to `c` with
      `g` one weight above `c`'s, its cached `h` and `f = g + h`; a neighbour
      on the open list that keeps its `g` keeps its link, which it has. */
  lemma RelaxedFacts(G1: map<Cell, Node>, G2: map<Cell, Node>, c: Cell, gc: nat, finish: Cell, ns: seq<Cell>,
                     open: seq<Cell>)
    requires forall x :: x in G2 <==> x in G1
    requires forall x :: x in G1 ==> G2[x] == RelaxedIn(G1[x], x, c, gc, finish, ns, open)
    requires forall x :: x in open && x in G1 && !G1[x].isVisited ==> G1[x].previousNode.Some?
    ensures PointsBack(G1, G2, c, ns) && ScoresOnly(G1, G2)
    ensures forall x :: x in G1 && G2[x] != G1[x] ==>
      && x in ns && !G1[x].isVisited && G2[x].previousNode == Some(c)
      && G2[x].g == gc + EffectiveWeight(G2[x])
      && G2[x].h == CachedH(G1[x], x, finish) && G2[x].f == G2[x].g + G2[x].h
  {
    forall x | x in G1
      ensures G2[x].isVisited == G1[x].isVisited && G2[x].isWall == G1[x].isWall
      ensures G1[x].isVisited || x !in ns ==> G2[x] == G1[x]
      ensures x in ns && !G1[x].isVisited ==>
        G2[x].previousNode == Some(c) || (G1[x].previousNode.Some? && G2[x].previousNode == G1[x].previousNode)
      ensures G2[x] == G1[x].(g := G2[x].g, h := G2[x].h, f := G2[x].f, isVisited := G2[x].isVisited,
                              previousNode := G2[x].previousNode)
      ensures G2[x] != G1[x] ==>
        && x in ns && !G1[x].isVisited && G2[x].previousNode == Some(c)
        && G2[x].g == gc + EffectiveWeight(G2[x])
        && G2[x].h == CachedH(G1[x], x, finish) && G2[x].f == G2[x].g + G2[x].h
    {
      var n := G1[x];
      assert G2[x] == RelaxedIn(n, x, c, gc, finish, ns, open);
    }
  }

  /** The relaxation keeps the scores: the start is visited and so untouched,
      and a node opened again reads back the heuristic it cached. */
  lemma RelaxKeepsScores(G0: map<Cell, Node>, G1: map<Cell, Node>, G2: map<Cell, Node>, start: Cell, finish: Cell,
                         c: Cell)
    requires Scores(G0, G1, start, finish) && G1[start].isVisited
    requires forall x :: x in G2 <==> x in G1
    requires forall x :: x in G1 && (G1[x].isVisited || G2[x] == G1[x]) ==> G2[x] == G1[x]
    requires forall x :: x in G1 && G2[x] != G1[x] ==>
      G2[x].previousNode == Some(c) && G2[x].h == CachedH(G1[x], x, finish) && G2[x].f == G2[x].g + G2[x].h
    ensures Scores(G0, G2, start, finish)
  {
    forall x | x in G0 && x in G2 && x != start && G2[x].previousNode.Some?
      ensures G2[x].h == CachedH(G0[x], x, finish)
    {
      if G2[x] != G1[x] {
        if G1[x].previousNode.Some? {
          CachedHStable(G0[x], x, finish);
        }
      }
    }
  }

  /** The relaxation keeps every link's `g` sum: links it writes point to the
      visited node `c`, and the nodes links point to are visited, so
      untouched. */
  lemma RelaxKeepsChain(G1: map<Cell, Node>, G2: map<Cell, Node>, VS: set<Cell>, c: Cell, gc: nat)
    requires GChain(G1, VS) && c in VS && c in G1 && G1[c].g == gc
    requires forall x :: x in G1 ==> (G1[x].isVisited <==> x in VS)
    requires forall x :: x in G2 <==> x in G1
    requires forall x :: x in G1 && G1[x].isVisited ==> G2[x] == G1[x]
    requires forall x :: x in G1 ==> G2[x].weight == G1[x].weight
    requires forall x :: x in G1 && G2[x] != G1[x] ==>
      G2[x].previousNode == Some(c) && G2[x].g == gc + EffectiveWeight(G2[x])
    ensures GChain(G2, VS)
  {
    forall x | x in G2 && G2[x].previousNode.Some?
      ensures G2[x].previousNode.value in VS && G2[x].previousNode.value in G2
      ensures G2[x].g == G2[G2[x].previousNode.value].g + EffectiveWeight(G2[x])
    {
      if G2[x] == G1[x] {
        var p := G1[x].previousNode.value;
        assert p in VS;
        assert G2[p] == G1[p];
      }
    }
  }

  /** The pushes keep the open list free of repeats and of visited nodes:
      a pushed neighbour is unvisited and was not on the list. */
  lemma PushKeepsOpen(G1: map<Cell, Node>, G2: map<Cell, Node>, ns: seq<Cell>, openSet: seq<Cell>,
                      openSet': seq<Cell>)
    requires OpenFresh(G1, openSet)
    requires forall x :: x in G2 <==> x in G1
    requires forall x :: x in G1 ==> G2[x].isVisited == G1[x].isVisited
    requires Distinct(ns) && forall i :: 0 <= i < |ns| ==> ns[i] in G1
    requires openSet' == openSet + Fresh(G1, ns, openSet)
    ensures OpenFresh(G2, openSet')
  {
    FreshMembers(G1, ns, openSet);
    var pushed := Fresh(G1, ns, openSet);
    assert multiset(openSet') == multiset(openSet) + multiset(pushed);
    forall x ensures multiset(openSet')[x] <= 1 {
      if x in pushed {
        assert x !in multiset(openSet);
      } else {
        assert x !in multiset(pushed);
      }
    }
    assert forall x :: x in openSet' <==> x in openSet || x in pushed;
  }

  /** The relaxation from the node `c` just visited keeps the invariant of
      the main loop, the open list growing from `openSet` to `openSet'`. */
  lemma RelaxKeeps(G0: map<Cell, Node>, G1: map<Cell, Node>, G2: map<Cell, Node>, start: Cell, finish: Cell,
                   V: seq<Cell>, VS: set<Cell>, rank: map<Cell, nat>, F: seq<Cell>, c: Cell, ns: seq<Cell>,
                   openSet: seq<Cell>, openSet': seq<Cell>)
    requires Marked(G1, start, V, VS + {c}, rank, openSet) && |V| > 0
    requires Closure(G1, VS, F) && (forall x :: x in F <==> x in openSet || x == c)
    requires c !in VS && c in G1 && OpenFresh(G1, openSet)
    requires Scores(G0, G1, start, finish) && GChain(G1, VS + {c})
    requires Distinct(ns) && forall i :: 0 <= i < |ns| ==> ns[i] in G1
    requires forall n :: n in ns <==> n in G1 && Adjacent(c, n) && !G1[n].isWall
    requires forall x :: x in G2 <==> x in G1
    requires forall x :: x in G1 ==> G2[x] == RelaxedIn(G1[x], x, c, G1[c].g, finish, ns, openSet)
    requires openSet' == openSet + Fresh(G1, ns, openSet)
    ensures ScoresOnly(G1, G2) && Marked(G2, start, V, VS + {c}, rank, openSet')
    ensures Closure(G2, VS + {c}, openSet') && OpenFresh(G2, openSet')
    ensures Scores(G0, G2, start, finish) && GChain(G2, VS + {c})
  {
    assert V[0] == start && start in VS + {c};
    RelaxedFacts(G1, G2, c, G1[c].g, finish, ns, openSet);
    FreshMembers(G1, ns, openSet);
    assert forall x :: x in openSet' <==> x in openSet || (x in ns && !G1[x].isVisited && x !in openSet);
    PushKeeps(G1, G2, start, V, VS + {c}, rank, openSet, c, ns, openSet');
    PushCloses(G1, G2, VS, F, openSet, c, ns, openSet');
    PushKeepsOpen(G1, G2, ns, openSet, openSet');
    RelaxKeepsScores(G0, G1, G2, start, finish, c);
    RelaxKeepsChain(G1, G2, VS + {c}, c, G1[c].g);
  }

  /** Lines 99-114, after the node `currentNode` has been visited: relax its
      open neighbours, pushing those not yet on the open list. */
  method Expand(grid: array2<Node>, startNode: Cell, finishNode: Cell, currentNode: Cell, ghost V: seq<Cell>,
                openSet: seq<Cell>, ghost VS: set<Cell>, ghost rank: map<Cell, nat>, ghost F: seq<Cell>,
                ghost G0: map<Cell, Node>)
    returns (openSet': seq<Cell>)
    modifies grid
    requires Marked(View(grid), startNode, V, VS + {currentNode}, rank, openSet) && |V| > 0
    requires Closure(View(grid), VS, F) && (forall x :: x in F <==> x in openSet || x == currentNode)
    requires currentNode !in VS && InBounds(grid, currentNode) && OpenFresh(View(grid), openSet)
    requires Scores(G0, View(grid), startNode, finishNode) && GChain(View(grid), VS + {currentNode})
    requires ManhattanCached(G0, finishNode) ==> OptimalMarked(View(grid), finishNode, VS, currentNode, openSet)
    ensures ScoresOnly(old(View(grid)), View(grid))
    ensures Marked(View(grid), startNode, V, VS + {currentNode}, rank, openSet')
    ensures Closure(View(grid), VS + {currentNode}, openSet') && OpenFresh(View(grid), openSet')
    ensures Scores(G0, View(grid), startNode, finishNode) && GChain(View(grid), VS + {currentNode})
    ensures ManhattanCached(G0, finishNode) ==> Optimal(View(grid), finishNode, VS + {currentNode}, openSet')
  {
    ghost var G1 := View(grid);
    var neighbors := GetNeighbors(grid, currentNode);
    NeighborsDistinct(grid, currentNode);
    openSet' := RelaxNeighbors(grid, currentNode, finishNode, neighbors, openSet);
    RelaxKeeps(G0, G1, View(grid), startNode, finishNode, V, VS, rank, F, currentNode, neighbors, openSet, openSet');
    if ManhattanCached(G0, finishNode) {
      FreshMembers(G1, neighbors, openSet);
      OptimalRelax(G1, View(grid), finishNode, VS, currentNode, F, openSet, neighbors, openSet');
    }
  }

  /** Taking `c` off the open list keeps it free of repeats and of visited
      nodes, `c` aside, and `c` is not left on it. */
  lemma PopKeepsOpen(G: map<Cell, Node>, G1: map<Cell, Node>, F: seq<Cell>, rest: seq<Cell>, c: Cell)
    requires OpenFresh(G, F) && multiset(F) == multiset(rest) + multiset{c}
    requires forall x :: x in G1 <==> x in G
    requires forall x :: x in G && x != c ==> G1[x].isVisited == G[x].isVisited
    ensures OpenFresh(G1, rest) && c !in rest && c in F
    ensures forall x :: x in F <==> x in rest || x == c
  {
    MultisetMembers(F, rest, c);
    assert multiset(F)[c] == multiset(rest)[c] + 1;
    forall x ensures multiset(rest)[x] <= 1 {
      assert multiset(F)[x] >= multiset(rest)[x];
    }
  }

  /** Marking `c` visited changes no score and no link. */
  lemma MarkKeepsScores(G0: map<Cell, Node>, G: map<Cell, Node>, G1: map<Cell, Node>, start: Cell, finish: Cell,
                        VS: set<Cell>, c: Cell)
    requires Scores(G0, G, start, finish) && GChain(G, VS) && c in G
    requires G1 == G[c := G[c].(isVisited := true)]
    ensures ScoresOnly(G, G1) && Scores(G0, G1, start, finish) && GChain(G1, VS + {c})
  {
    forall x | x in G1
      ensures x in G && G1[x] == G[x].(isVisited := G1[x].isVisited)
    {
    }
  }

  /** Marking the node `c` just taken off the open list keeps the invariant
      of the main loop, with `c` visited. */
  lemma MarkKeeps(G0: map<Cell, Node>, G: map<Cell, Node>, G1: map<Cell, Node>, start: Cell, finish: Cell,
                  V: seq<Cell>, VS: set<Cell>, rank: map<Cell, nat>, F: seq<Cell>, rest: seq<Cell>, c: Cell)
    requires Marked(G, start, V, VS, rank, F)
    requires OpenFresh(G, F) && multiset(F) == multiset(rest) + multiset{c}
    requires Scores(G0, G, start, finish) && GChain(G, VS)
    requires c in G && !G[c].isWall
    requires G1 == G[c := G[c].(isVisited := true)]
    ensures c !in VS && (forall x :: x in F <==> x in rest || x == c)
    ensures Marked(G1, start, V + [c], VS + {c}, rank[c := |V|], rest) && OpenFresh(G1, rest)
    ensures ScoresOnly(G, G1) && Scores(G0, G1, start, finish) && GChain(G1, VS + {c})
  {
    PopKeepsOpen(G, G1, F, rest, c);
    MarkKeepsScores(G0, G, G1, start, finish, VS, c);
    VisitKeeps(G, G1, start, V, VS, rank, F, rest, c);
  }

  /** Line 97: the finish has just been visited; read its path back. The
      path costs the `g` the finish holds, which with Manhattan heuristics
      makes it the cheapest walk. */
  method FinishPath(grid: array2<Node>, startNode: Cell, finishNode: Cell, visited: seq<Cell>, ghost VS: set<Cell>,
                    ghost rank: map<Cell, nat>, ghost openSet: seq<Cell>, ghost G0: map<Cell, Node>,
                    ghost before: set<Cell>, ghost F: seq<Cell>)
    returns (path: seq<Cell>)
    requires Marked(View(grid), startNode, visited, VS, rank, openSet)
    requires |visited| > 0 && visited[|visited| - 1] == finishNode && VS == before + {finishNode}
    requires Scores(G0, View(grid), startNode, finishNode) && GChain(View(grid), VS)
    requires ManhattanCached(G0, finishNode) ==>
      && OptimalMarked(View(grid), finishNode, before, finishNode, openSet)
      && Closure(View(grid), before, F) && (forall x :: x in F <==> x in openSet || x == finishNode)
    ensures SoundResult(grid, startNode, finishNode, SearchResult(visited, path))
    ensures CompleteResult(grid, startNode, finishNode, SearchResult(visited, path))
    ensures VisitedExactly(grid, visited)
    ensures At(grid, finishNode).g == PathCost(grid, path)
    ensures ManhattanCached(G0, finishNode) ==>
      forall p :: IsPath(grid, p, startNode, finishNode) ==> PathCost(grid, path) <= PathCost(grid, p)
  {
    assert finishNode in VS;
    path := TracePath(grid, startNode, finishNode, VS, rank);
    FoundResult(grid, startNode, finishNode, visited, VS, rank, openSet, path);
    ChainCost(grid, VS, path);
    if ManhattanCached(G0, finishNode) {
      LeastCost(grid, startNode, finishNode, before, F, openSet, path);
    }
  }

  /** Lines 95-112: visit the node `currentNode` just taken; return the path
      when it is the finish, and otherwise relax its open neighbours. */
  method VisitBest(grid: array2<Node>, startNode: Cell, finishNode: Cell, currentNode: Cell,
                   visitedNodesInOrder: seq<Cell>, openSet: seq<Cell>, ghost VS: set<Cell>, ghost rank: map<Cell, nat>,
                   ghost F: seq<Cell>, ghost G0: map<Cell, Node>)
    returns (visited: seq<Cell>, openSet': seq<Cell>, path: Option<seq<Cell>>)
    modifies grid
    requires Marked(View(grid), startNode, visitedNodesInOrder, VS, rank, F) && Closure(View(grid), VS, F)
    requires OpenFresh(View(grid), F) && multiset(F) == multiset(openSet) + multiset{currentNode}
    requires InBounds(grid, currentNode) && !At(grid, currentNode).isWall
    requires Scores(G0, View(grid), startNode, finishNode) && GChain(View(grid), VS)
    requires forall x :: x in F && x in View(grid) ==> View(grid)[currentNode].f <= View(grid)[x].f
    requires ManhattanCached(G0, finishNode) ==> Optimal(View(grid), finishNode, VS, F)
    ensures visited == visitedNodesInOrder + [currentNode] && currentNode !in VS
    ensures ScoresOnly(old(View(grid)), View(grid)) && Scores(G0, View(grid), startNode, finishNode)
    ensures path.Some? ==> (currentNode == finishNode
      && SoundResult(grid, startNode, finishNode, SearchResult(visited, path.value))
      && CompleteResult(grid, startNode, finishNode, SearchResult(visited, path.value))
      && VisitedExactly(grid, visited)
      && At(grid, finishNode).g == PathCost(grid, path.value)
      && (ManhattanCached(G0, finishNode) ==>
            forall p :: IsPath(grid, p, startNode, finishNode) ==> PathCost(grid, path.value) <= PathCost(grid, p)))
    ensures path.None? ==> (currentNode != finishNode
      && Marked(View(grid), startNode, visited, VS + {currentNode}, rank[currentNode := |visitedNodesInOrder|], openSet')
      && Closure(View(grid), VS + {currentNode}, openSet') && OpenFresh(View(grid), openSet')
      && GChain(View(grid), VS + {currentNode})
      && (ManhattanCached(G0, finishNode) ==> Optimal(View(grid), finishNode, VS + {currentNode}, openSet')))
  {
    ghost var G := View(grid);
    MarkVisited(grid, currentNode);
    ghost var G1 := View(grid);
    MarkKeeps(G0, G, G1, startNode, finishNode, visitedNodesInOrder, VS, rank, F, openSet, currentNode);
    if ManhattanCached(G0, finishNode) {
      OptimalMark(G, G1, finishNode, VS, F, openSet, currentNode);
    }
    assert Closure(G1, VS, F);
    visited := visitedNodesInOrder + [currentNode];
    ghost var VS', rank' := VS + {currentNode}, rank[currentNode := |visitedNodesInOrder|];
    if currentNode == finishNode {
      var p := FinishPath(grid, startNode, finishNode, visited, VS', rank', openSet, G0, VS, F);
      return visited, openSet, Some(p);
    }
    openSet' := Expand(grid, startNode, finishNode, currentNode, visited, openSet, VS, rank', F, G0);
    ScoresOnlyTrans(G, G1, View(grid));
    path := None;
  }

  /** Lines 90-113, one pass of the main loop: sort the open list by `f`,
      take its head, skip it when it is a wall and visit it otherwise. Each
      pass visits a new cell or shortens the open list. */
  method AStarPass(grid: array2<Node>, startNode: Cell, finishNode: Cell, openSet: seq<Cell>,
                   visitedNodesInOrder: seq<Cell>, ghost VS: set<Cell>, ghost rank: map<Cell, nat>,
                   ghost G0: map<Cell, Node>)
    returns (openSet': seq<Cell>, visited: seq<Cell>, path: Option<seq<Cell>>, ghost VS': set<Cell>,
             ghost rank': map<Cell, nat>)
    modifies grid
    requires openSet != []
    requires Marked(View(grid), startNode, visitedNodesInOrder, VS, rank, openSet)
    requires Closure(View(grid), VS, openSet) && OpenFresh(View(grid), openSet)
    requires Scores(G0, View(grid), startNode, finishNode) && GChain(View(grid), VS)
    requires finishNode !in VS && VS <= AllCells(grid) && InBounds(grid, finishNode)
    requires ManhattanCached(G0, finishNode) ==> Optimal(View(grid), finishNode, VS, openSet)
    ensures ScoresOnly(old(View(grid)), View(grid)) && Scores(G0, View(grid), startNode, finishNode)
    ensures path.Some? ==> (SoundResult(grid, startNode, finishNode, SearchResult(visited, path.value))
      && CompleteResult(grid, startNode, finishNode, SearchResult(visited, path.value))
      && VisitedExactly(grid, visited) && |visited| > 0
      && At(grid, finishNode).g == PathCost(grid, path.value)
      && (ManhattanCached(G0, finishNode) ==>
            forall p :: IsPath(grid, p, startNode, finishNode) ==> PathCost(grid, path.value) <= PathCost(grid, p)))
    ensures path.None? ==> (Marked(View(grid), startNode, visited, VS', rank', openSet')
      && Closure(View(grid), VS', openSet') && OpenFresh(View(grid), openSet') && GChain(View(grid), VS')
      && finishNode !in VS' && VS' <= AllCells(grid)
      && (ManhattanCached(G0, finishNode) ==> Optimal(View(grid), finishNode, VS', openSet')))
    ensures path.None? ==> (|AllCells(grid) - VS'| < |AllCells(grid) - VS|
      || (VS' == VS && |openSet'| < |openSet|))
  {
    var closestNode;
    closestNode, openSet' := TakeFirst(grid, ByF, openSet);
    visited, VS', rank' := visitedNodesInOrder, VS, rank;
    if At(grid, closestNode).isWall {
      PopKeepsOpen(View(grid), View(grid), openSet, openSet', closestNode);
      SkipKeeps(View(grid), startNode, visitedNodesInOrder, VS, rank, openSet, openSet', closestNode);
      if ManhattanCached(G0, finishNode) {
        OptimalSkip(View(grid), finishNode, VS, openSet, openSet');
      }
      return openSet', visited, None, VS', rank';
    }
    LeastF(grid, closestNode, openSet);
    visited, openSet', path :=
      VisitBest(grid, startNode, finishNode, closestNode, visitedNodesInOrder, openSet', VS, rank, openSet, G0);
    MissingShrinks(AllCells(grid), VS, closestNode);
    VS', rank' := VS + {closestNode}, rank[closestNode := |visitedNodesInOrder|];
  }

  /** The node sorted first by `f` has the least `f` on the list. */
  lemma LeastF(grid: array2<Node>, c: Cell, s: seq<Cell>)
    requires InBounds(grid, c) && AllInBounds(grid, s)
    requires forall x :: x in s ==> DistLe(Key(grid, ByF, c), Key(grid, ByF, x))
    ensures forall x :: x in s && x in View(grid) ==> View(grid)[c].f <= View(grid)[x].f
  {
    forall x | x in s && x in View(grid) ensures View(grid)[c].f <= View(grid)[x].f {
      assert DistLe(Key(grid, ByF, c), Key(grid, ByF, x));
    }
  }

  /** Lines 86-88: the start gets `g = 0` and `f` its heuristic, and is the
      only open node. */
  method ScoreStart(grid: array2<Node>, startNode: Cell, finishNode: Cell) returns (openSet: seq<Cell>)
    modifies grid
    requires InBounds(grid, startNode) && Clean(grid)
    ensures openSet == [startNode]
    ensures ScoresOnly(old(View(grid)), View(grid)) && Scores(old(View(grid)), View(grid), startNode, finishNode)
    ensures Marked(View(grid), startNode, [], {}, map[], openSet) && Closure(View(grid), {}, openSet)
    ensures OpenFresh(View(grid), openSet) && GChain(View(grid), {})
    ensures ManhattanCached(old(View(grid)), finishNode) ==> Optimal(View(grid), finishNode, {}, openSet)
  {
    ghost var G0 := View(grid);
    grid[startNode.row, startNode.col] :=
      grid[startNode.row, startNode.col].(g := 0, f := ManhattanDistance(startNode, finishNode));
    openSet := [startNode];
    assert View(grid) == G0[startNode := G0[startNode].(g := 0, f := ManhattanDistance(startNode, finishNode))];
    InitialMarked(View(grid), startNode);
    if ManhattanCached(G0, finishNode) {
      OptimalInitial(View(grid), startNode, finishNode);
    }
  }

  method AStar(grid: array2<Node>, startNode: Cell, finishNode: Cell) returns (result: SearchResult)
    modifies grid
    requires InBounds(grid, startNode) && InBounds(grid, finishNode) && Clean(grid) && Shaped(grid)
    ensures ScoresOnly(old(View(grid)), View(grid)) && Scores(old(View(grid)), View(grid), startNode, finishNode)
    ensures SoundResult(grid, startNode, finishNode, result) && CompleteResult(grid, startNode, finishNode, result)
    ensures VisitedExactly(grid, result.visitedNodesInOrder)
    ensures !At(grid, startNode).isWall ==> |result.visitedNodesInOrder| > 0
    ensures result.path != [] ==> At(grid, finishNode).g == PathCost(grid, result.path)
    ensures ManhattanCached(old(View(grid)), finishNode) && result.path != [] ==>
      forall p :: IsPath(grid, p, startNode, finishNode) ==> PathCost(grid, result.path) <= PathCost(grid, p)
  {
    ghost var G0 := View(grid);
    var visitedNodesInOrder: seq<Cell> := [];
    var openSet := ScoreStart(grid, startNode, finishNode);
    ghost var VS: set<Cell> := {};
    ghost var rank: map<Cell, nat> := map[];
    while |openSet| > 0
      invariant ScoresOnly(G0, View(grid)) && Scores(G0, View(grid), startNode, finishNode)
      invariant Marked(View(grid), startNode, visitedNodesInOrder, VS, rank, openSet)
      invariant Closure(View(grid), VS, openSet) && OpenFresh(View(grid), openSet) && GChain(View(grid), VS)
      invariant finishNode !in VS && VS <= AllCells(grid)
      invariant ManhattanCached(G0, finishNode) ==> Optimal(View(grid), finishNode, VS, openSet)
      decreases |AllCells(grid) - VS|, |openSet|
    {
      ghost var G := View(grid);
      var path;
      openSet, visitedNodesInOrder, path, VS, rank :=
        AStarPass(grid, startNode, finishNode, openSet, visitedNodesInOrder, VS, rank, G0);
      ScoresOnlyTrans(G0, G, View(grid));
      if path.Some? {
        return SearchResult(visitedNodesInOrder, path.value);
      }
    }
    ExhaustedResult(grid, startNode, finishNode, visitedNodesInOrder, VS, rank);
    return SearchResult(visitedNodesInOrder, []);
  }
}
