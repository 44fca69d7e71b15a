/** The invariant shared by the searches that mark a node when they take it
    off their frontier: `dfs` (algorithms.js, lines 174-192, a stack),
    `greedyBestFirst` (lines 119-147, a list sorted before each pass) and
    `aStar` (lines 84-117, an open set), and, for its frontier facts, `bfs`.
    Each pushes unvisited open neighbours of the node just visited, pointing
    their `previousNode` back to that node, so the same facts hold of every
    frontier; only its cells matter, not their order or repeats. */
module Frontier {
  import opened Wrappers
  import opened Nodes
  import opened Helpers
  import opened Trees

  /** The neighbours in `ns` not yet visited in `G`, in order: the cells the
      push loops append to the frontier. */
  ghost function Unvisited(G: map<Cell, Node>, ns: seq<Cell>): (r: seq<Cell>)
    requires forall i :: 0 <= i < |ns| ==> ns[i] in G
  {
    if ns == [] then []
    else
      var last := ns[|ns| - 1];
      Unvisited(G, ns[..|ns| - 1]) + (if G[last].isVisited then [] else [last])
  }

  /** The pushed cells are exactly the unvisited neighbours. */
  lemma {:induction false} UnvisitedMembers(G: map<Cell, Node>, ns: seq<Cell>)
    requires forall i :: 0 <= i < |ns| ==> ns[i] in G
    ensures forall n :: n in Unvisited(G, ns) <==> n in ns && !G[n].isVisited
  {
    if ns != [] {
      var init := ns[..|ns| - 1];
      UnvisitedMembers(G, init);
      assert ns == init + [ns[|ns| - 1]];
    }
  }

  lemma UnvisitedStep(G: map<Cell, Node>, ns: seq<Cell>, k: nat)
    requires k < |ns| && forall i :: 0 <= i < |ns| ==> ns[i] in G
    ensures Unvisited(G, ns[..k + 1]) == Unvisited(G, ns[..k]) + (if G[ns[k]].isVisited then [] else [ns[k]])
  {
    assert ns[..k + 1][..k] == ns[..k];
  }

  /** The visit order `V`, with `VS` its cells and `rank` each cell's place
      in it: each cell listed once. */
  ghost predicate VisitList(V: seq<Cell>, VS: set<Cell>, rank: map<Cell, nat>) {
    && (forall c :: c in VS <==> c in V)
    && Distinct(V)
    && (forall c :: c in VS ==> c in rank && rank[c] < |V|)
  }

  /** The nodes flagged `isVisited` are exactly the cells of `VS`, all open. */
  ghost predicate VisitedCells(G: map<Cell, Node>, VS: set<Cell>) {
    && (forall c :: c in G ==> (G[c].isVisited <==> c in VS))
    && (forall c :: c in VS ==> c in G && !G[c].isWall)
  }

  /** The frontier holds grid cells, and only the start before anything is
      visited. */
  ghost predicate FrontierCells(G: map<Cell, Node>, start: Cell, V: seq<Cell>, F: seq<Cell>) {
    && (forall x :: x in F ==> x in G)
    && (|V| == 0 ==> forall x :: x in F ==> x == start)
  }

  /** Once something is visited the start comes first, and the `previousNode`
      links of the visited cells form a tree rooted at the start. */
  ghost predicate StartTree(G: map<Cell, Node>, start: Cell, V: seq<Cell>, VS: set<Cell>, rank: map<Cell, nat>) {
    |V| > 0 ==> V[0] == start && Tree(G, Back, start, VS, rank)
  }

  /** An unvisited node with a `previousNode` points to a visited neighbour. */
  ghost predicate Pending(G: map<Cell, Node>, VS: set<Cell>) {
    forall c {:trigger G[c].previousNode} :: c in G && c !in VS && G[c].previousNode.Some? ==>
      G[c].previousNode.value in VS && Adjacent(G[c].previousNode.value, c)
  }

  /** An unvisited node waiting on the frontier has a `previousNode` unless it
      is the start, and an open start is visited or still waiting. */
  ghost predicate Waiting(G: map<Cell, Node>, start: Cell, VS: set<Cell>, F: seq<Cell>)
    requires start in G
    requires forall x :: x in F ==> x in G
  {
    && (forall x :: x in F && x != start && x !in VS ==> G[x].previousNode.Some?)
    && (!G[start].isWall ==> start in VS || start in F)
  }

  /** The state between passes of the main loop, with `F` the frontier. */
  ghost predicate Marked(G: map<Cell, Node>, start: Cell, V: seq<Cell>, VS: set<Cell>, rank: map<Cell, nat>, F: seq<Cell>) {
    && start in G
    && VisitList(V, VS, rank)
    && VisitedCells(G, VS)
    && FrontierCells(G, start, V, F)
    && StartTree(G, start, V, VS, rank)
    && Pending(G, VS)
    && Waiting(G, start, VS, F)
  }

  /** Every open neighbour of a visited cell is visited or on the frontier. */
  ghost predicate Closure(G: map<Cell, Node>, VS: set<Cell>, F: seq<Cell>) {
    forall v, n :: v in VS && n in G && Adjacent(v, n) && !G[n].isWall ==> n in VS || n in F
  }

  /** Before the main loop: nothing visited, the start alone on the
      frontier. */
  lemma InitialMarked(G: map<Cell, Node>, start: Cell)
    requires start in G
    requires forall c :: c in G ==> !G[c].isVisited && G[c].previousNode == None
    ensures Marked(G, start, [], {}, map[], [start]) && Closure(G, {}, [start])
  {
  }

  /** Taking `c` off a list leaves the other cells on it. */
  lemma MultisetMembers(F: seq<Cell>, rest: seq<Cell>, c: Cell)
    requires multiset(F) == multiset(rest) + multiset{c}
    ensures forall x :: x in F <==> x in rest || x == c
  {
    forall x ensures x in F <==> x in rest || x == c {
      assert x in F <==> x in multiset(F);
      assert x in rest <==> x in multiset(rest);
    }
  }

  /** Taking a node already visited, or a wall, off the frontier changes
      nothing else. */
  lemma SkipKeeps(G: map<Cell, Node>, start: Cell, V: seq<Cell>, VS: set<Cell>, rank: map<Cell, nat>,
                  F: seq<Cell>, rest: seq<Cell>, c: Cell)
    requires Marked(G, start, V, VS, rank, F) && Closure(G, VS, F)
    requires forall x :: x in F <==> x in rest || x == c
    requires c in G && (G[c].isVisited || G[c].isWall)
    ensures Marked(G, start, V, VS, rank, rest) && Closure(G, VS, rest)
  {
  }

  /** Marking visited the node `c` just taken off the frontier. */
  lemma VisitKeeps(G: map<Cell, Node>, G1: map<Cell, Node>, start: Cell, V: seq<Cell>, VS: set<Cell>,
                   rank: map<Cell, nat>, F: seq<Cell>, rest: seq<Cell>, c: Cell)
    requires Marked(G, start, V, VS, rank, F)
    requires forall x :: x in F <==> x in rest || x == c
    requires c in G && c !in VS && !G[c].isWall
    requires G1 == G[c := G[c].(isVisited := true)]
    ensures Marked(G1, start, V + [c], VS + {c}, rank[c := |V|], rest)
  {
    assert c in F;
    VisitKeepsList(V, VS, rank, c);
    VisitKeepsTree(G, G1, start, V, VS, rank, F, c);
    assert Waiting(G1, start, VS + {c}, rest);
  }

  lemma VisitKeepsList(V: seq<Cell>, VS: set<Cell>, rank: map<Cell, nat>, c: Cell)
    requires VisitList(V, VS, rank) && c !in VS
    ensures VisitList(V + [c], VS + {c}, rank[c := |V|])
  {
    assert forall x :: x in V + [c] <==> x in V || x == c;
  }

  lemma VisitKeepsTree(G: map<Cell, Node>, G1: map<Cell, Node>, start: Cell, V: seq<Cell>, VS: set<Cell>,
                       rank: map<Cell, nat>, F: seq<Cell>, c: Cell)
    requires start in G && VisitList(V, VS, rank) && FrontierCells(G, start, V, F)
    requires StartTree(G, start, V, VS, rank) && Pending(G, VS) && Waiting(G, start, VS, F)
    requires VisitedCells(G, VS) && c in F && c in G && c !in VS && !G[c].isWall
    requires G1 == G[c := G[c].(isVisited := true)]
    ensures StartTree(G1, start, V + [c], VS + {c}, rank[c := |V|])
  {
    var V', VS', rank' := V + [c], VS + {c}, rank[c := |V|];
    if |V| == 0 {
      assert c == start;
    }
    forall x | x in VS' && x != start ensures Linked(G1, Back, VS', rank', x) {
      if x != c {
        assert Linked(G, Back, VS, rank, x);
      }
    }
  }

  /** What a push loop over the open neighbours `ns` of the node `c` does:
      each unvisited one is pointed back to `c`, or keeps the link it already
      had, and may have its scores rewritten; no node changes its `isVisited`
      or `isWall`, and no other node changes at all. */
  ghost predicate PointsBack(G1: map<Cell, Node>, G2: map<Cell, Node>, c: Cell, ns: seq<Cell>) {
    && (forall x :: x in G2 <==> x in G1)
    && (forall x :: x in G1 ==> G2[x].isVisited == G1[x].isVisited && G2[x].isWall == G1[x].isWall)
    && (forall x :: x in G1 && (G1[x].isVisited || x !in ns) ==> G2[x] == G1[x])
    && (forall x :: x in G1 && x in ns && !G1[x].isVisited ==>
          G2[x].previousNode == Some(c) || (G1[x].previousNode.Some? && G2[x].previousNode == G1[x].previousNode))
  }

  /** The pushes from the node `c` just visited keep the invariant, the
      frontier growing from `rest` to `F2` by the unvisited neighbours. */
  lemma PushKeeps(G1: map<Cell, Node>, G2: map<Cell, Node>, start: Cell, V: seq<Cell>, VS: set<Cell>,
                  rank: map<Cell, nat>, rest: seq<Cell>, c: Cell, ns: seq<Cell>, F2: seq<Cell>)
    requires Marked(G1, start, V, VS, rank, rest) && c in VS
    requires forall n :: n in ns <==> n in G1 && Adjacent(c, n) && !G1[n].isWall
    requires PointsBack(G1, G2, c, ns)
    requires forall x :: x in F2 <==> x in rest || (x in ns && !G1[x].isVisited)
    ensures Marked(G2, start, V, VS, rank, F2)
  {
    PushKeepsTree(G1, G2, start, V, VS, rank);
    PushKeepsPending(G1, G2, VS, c, ns);
    PushKeepsWaiting(G1, G2, start, VS, rest, c, ns, F2);
  }

  lemma PushKeepsTree(G1: map<Cell, Node>, G2: map<Cell, Node>, start: Cell, V: seq<Cell>, VS: set<Cell>, rank: map<Cell, nat>)
    requires StartTree(G1, start, V, VS, rank) && VisitedCells(G1, VS)
    requires forall x :: x in G2 <==> x in G1
    requires forall x :: x in G1 && G1[x].isVisited ==> G2[x] == G1[x]
    ensures StartTree(G2, start, V, VS, rank)
  {
    if |V| > 0 {
      forall x | x in VS && x != start ensures Linked(G2, Back, VS, rank, x) {
        assert Linked(G1, Back, VS, rank, x);
      }
    }
  }

  lemma PushKeepsPending(G1: map<Cell, Node>, G2: map<Cell, Node>, VS: set<Cell>, c: Cell, ns: seq<Cell>)
    requires Pending(G1, VS) && c in VS
    requires forall n :: n in ns ==> Adjacent(c, n)
    requires PointsBack(G1, G2, c, ns)
    ensures Pending(G2, VS)
  {
    forall x | x in G2 && x !in VS && G2[x].previousNode.Some?
      ensures G2[x].previousNode.value in VS && Adjacent(G2[x].previousNode.value, x)
    {
      if x !in ns || G1[x].isVisited {
        assert G2[x] == G1[x];
      } else if G2[x].previousNode != Some(c) {
        assert G2[x].previousNode == G1[x].previousNode;
      }
    }
  }

  lemma PushKeepsWaiting(G1: map<Cell, Node>, G2: map<Cell, Node>, start: Cell, VS: set<Cell>,
                         rest: seq<Cell>, c: Cell, ns: seq<Cell>, F2: seq<Cell>)
    requires start in G1 && (forall x :: x in rest ==> x in G1) && (forall n :: n in ns ==> n in G1)
    requires Waiting(G1, start, VS, rest)
    requires PointsBack(G1, G2, c, ns)
    requires forall x :: x in F2 <==> x in rest || (x in ns && !G1[x].isVisited)
    ensures (forall x :: x in F2 ==> x in G2) && Waiting(G2, start, VS, F2)
  {
  }

  /** The pushes close the invariant over the node `c` just visited: each of
      its open neighbours is visited or now on the frontier. */
  lemma PushCloses(G1: map<Cell, Node>, G2: map<Cell, Node>, VS: set<Cell>, F: seq<Cell>, rest: seq<Cell>,
                   c: Cell, ns: seq<Cell>, F2: seq<Cell>)
    requires Closure(G1, VS, F) && c in G1
    requires forall x :: x in F <==> x in rest || x == c
    requires forall x :: x in G1 ==> (G1[x].isVisited <==> x in VS + {c})
    requires forall n :: n in ns <==> n in G1 && Adjacent(c, n) && !G1[n].isWall
    requires PointsBack(G1, G2, c, ns)
    requires forall x :: x in F2 <==> x in rest || (x in ns && !G1[x].isVisited)
    ensures Closure(G2, VS + {c}, F2)
  {
    var VS' := VS + {c};
    forall v, n | v in VS' && n in G2 && Adjacent(v, n) && !G2[n].isWall ensures n in VS' || n in F2 {
      assert G2[n].isWall == G1[n].isWall;
      if v != c {
        assert n in VS || n in F;
      }
    }
  }

  /** The result when the finish has just been visited and its path read
      back. */
  lemma FoundResult(grid: array2<Node>, start: Cell, finish: Cell, V: seq<Cell>, VS: set<Cell>,
                    rank: map<Cell, nat>, F: seq<Cell>, path: seq<Cell>)
    requires Marked(View(grid), start, V, VS, rank, F)
    requires |V| > 0 && V[|V| - 1] == finish
    requires IsPath(grid, path, start, finish) && Distinct(path) && (forall c :: c in path ==> c in V)
    ensures SoundResult(grid, start, finish, SearchResult(V, path))
    ensures CompleteResult(grid, start, finish, SearchResult(V, path))
    ensures VisitedExactly(grid, V)
  {
    var G := View(grid);
    forall i | 0 <= i < |V| ensures InBounds(grid, V[i]) && !At(grid, V[i]).isWall {
      assert V[i] in VS;
    }
  }

  /** The result when the frontier runs empty. With nothing left on it no
      step leads from a visited cell to an open cell outside them, so an open
      finish that was not visited cannot be reached. */
  lemma ExhaustedResult(grid: array2<Node>, start: Cell, finish: Cell, V: seq<Cell>, VS: set<Cell>, rank: map<Cell, nat>)
    requires Marked(View(grid), start, V, VS, rank, []) && Closure(View(grid), VS, [])
    requires finish !in VS && InBounds(grid, finish)
    ensures SoundResult(grid, start, finish, SearchResult(V, [])) && CompleteResult(grid, start, finish, SearchResult(V, []))
    ensures VisitedExactly(grid, V)
    ensures !At(grid, start).isWall ==> |V| > 0
  {
    var G := View(grid);
    forall i | 0 <= i < |V| ensures InBounds(grid, V[i]) && !At(grid, V[i]).isWall {
      assert V[i] in VS;
    }
    if !At(grid, start).isWall && !At(grid, finish).isWall {
      assert start in VS;
      assert Closed(grid, VS) by {
        forall v, n | v in VS && InBounds(grid, n) && Adjacent(v, n) && !At(grid, n).isWall ensures n in VS {
          assert n in G;
        }
      }
      ClosedSetSeparates(grid, VS, start, finish);
    }
  }
}
