/** `bfs(grid, startNode, finishNode)` (algorithms.js, lines 153-172): a
    breadth-first search with a FIFO queue that marks a node `isVisited`
    when it puts it on the queue, not when it takes it off, so no node is
    queued twice. A node is listed as visited when it is taken off the queue
    and is not a wall; only the start can be a wall there, as the queued
    neighbours come from `getNeighbors`. */
module Bfs {
  import opened Wrappers
  import opened Nodes
  import opened Helpers
  import opened Trees
  import opened Frontier

  /** The node `n` at cell `c` once the loop of lines 163-169 has run from
      `from` over `ns`: an unmarked neighbour is now marked and points back
      to `from`. */
  function Discovered(n: Node, c: Cell, from: Cell, ns: seq<Cell>): Node {
    if c in ns && !n.isVisited then n.(isVisited := true, previousNode := Some(from)) else n
  }

  /** Lines 164-168 on the neighbour `neighbor`: mark it, link it back to
      `currentNode` and queue it, unless it is already marked. */
  method DiscoverOne(grid: array2<Node>, currentNode: Cell, neighbor: Cell, queue: seq<Cell>) returns (queue': seq<Cell>)
    modifies grid
    requires InBounds(grid, neighbor)
    ensures View(grid) == old(View(grid))[neighbor := Discovered(old(View(grid))[neighbor], neighbor, currentNode, [neighbor])]
    ensures queue' == queue + (if old(View(grid))[neighbor].isVisited then [] else [neighbor])
  {
    queue' := queue;
    var node := grid[neighbor.row, neighbor.col];
    if !node.isVisited {
      grid[neighbor.row, neighbor.col] := node.(isVisited := true, previousNode := Some(currentNode));
      queue' := queue' + [neighbor];
    }
  }

  /** One more pass of the loop of lines 163-169, read on the grid's
      values. */
  lemma DiscoveredStep(G: map<Cell, Node>, Gk: map<Cell, Node>, Gk1: map<Cell, Node>, from: Cell, ns: seq<Cell>,
                       k: nat)
    requires k < |ns| && Distinct(ns) && ns[k] in G
    requires forall x :: x in G ==> x in Gk && Gk[x] == Discovered(G[x], x, from, ns[..k])
    requires Gk1 == Gk[ns[k] := Discovered(Gk[ns[k]], ns[k], from, [ns[k]])]
    ensures forall x :: x in G ==> x in Gk1 && Gk1[x] == Discovered(G[x], x, from, ns[..k + 1])
  {
    assert ns[k] !in ns[..k];
    forall x | x in G
      ensures x in Gk1 && Gk1[x] == Discovered(G[x], x, from, ns[..k + 1])
    {
      assert x in ns[..k + 1] <==> x in ns[..k] || x == ns[k];
    }
  }

  /** Lines 162-169: mark, link back and queue every unmarked neighbour of
      `currentNode`. */
  method DiscoverNeighbors(grid: array2<Node>, currentNode: Cell, neighbors: seq<Cell>, queue: seq<Cell>)
    returns (queue': seq<Cell>)
    modifies grid
    requires Distinct(neighbors) && AllInBounds(grid, neighbors)
    ensures queue' == queue + Unvisited(old(View(grid)), neighbors)
    ensures forall x :: x in old(View(grid)) ==>
      View(grid)[x] == Discovered(old(View(grid))[x], x, currentNode, neighbors)
  {
    ghost var G := View(grid);
    queue' := queue;
    for k := 0 to |neighbors|
      invariant queue' == queue + Unvisited(G, neighbors[..k])
      invariant forall x :: x in G ==> View(grid)[x] == Discovered(G[x], x, currentNode, neighbors[..k])
    {
      var neighbor := neighbors[k];
      ghost var Gk := View(grid);
      assert neighbor !in neighbors[..k] && Gk[neighbor] == G[neighbor];
      UnvisitedStep(G, neighbors, k);
      ghost var piece := if G[neighbor].isVisited then [] else [neighbor];
      assert piece == if Gk[neighbor].isVisited then [] else [neighbor];
      queue' := DiscoverOne(grid, currentNode, neighbor, queue');
      AppendAssoc(queue, Unvisited(G, neighbors[..k]), piece);
      DiscoveredStep(G, Gk, View(grid), currentNode, neighbors, k);
    }
    assert neighbors[..|neighbors|] == neighbors;
  }

  /** Distinct neighbours are each queued at most once. */
  lemma {:induction false} UnvisitedOnce(G: map<Cell, Node>, ns: seq<Cell>)
    requires Distinct(ns) && forall i :: 0 <= i < |ns| ==> ns[i] in G
    ensures forall x :: multiset(Unvisited(G, ns))[x] <= 1
  {
    if ns != [] {
      var init, last := ns[..|ns| - 1], ns[|ns| - 1];
      assert last !in init;
      UnvisitedOnce(G, init);
      UnvisitedMembers(G, init);
      assert multiset(Unvisited(G, init))[last] == 0;
    }
  }

  /** The marks between passes of the main loop, with `VS` the cells listed
      as visited and `Q` the queue: a node is marked exactly when it is the
      start, visited or queued, and an unmarked node has no `previousNode`;
      a queued node other than the start is open and linked back, and an
      unvisited node with a `previousNode` points to a visited
      neighbour. */
  ghost predicate QueueMarks(G: map<Cell, Node>, start: Cell, VS: set<Cell>, Q: seq<Cell>) {
    && (forall c :: c in G ==> (G[c].isVisited <==> c in VS || c in Q || c == start))
    && (forall c :: c in G && !G[c].isVisited ==> G[c].previousNode == None)
    && (forall x :: x in Q && x != start ==> x in G && !G[x].isWall && G[x].previousNode.Some?)
    && Pending(G, VS)
  }

  /** The state between passes of the main loop, with `V` the cells listed
      as visited, `VS` their set and `Q` the queue: the marks above; visited
      cells are open; queued cells are not visited and are queued once; the
      start comes first and the links of the visited cells form a tree
      rooted at it. */
  ghost predicate Queued(G: map<Cell, Node>, start: Cell, V: seq<Cell>, VS: set<Cell>, rank: map<Cell, nat>,
                         Q: seq<Cell>) {
    && start in G
    && VisitList(V, VS, rank)
    && QueueMarks(G, start, VS, Q)
    && (forall c :: c in VS ==> c in G && !G[c].isWall)
    && (forall x :: x in Q ==> x in G && x !in VS)
    && (forall x :: multiset(Q)[x] <= 1)
    && (|V| == 0 ==> forall x :: x in Q ==> x == start)
    && StartTree(G, start, V, VS, rank)
    && (!G[start].isWall ==> start in VS || start in Q)
  }

  /** Lines 155-156: the start alone is queued and marked. */
  lemma InitialQueued(G0: map<Cell, Node>, G1: map<Cell, Node>, start: Cell)
    requires start in G0
    requires forall c :: c in G0 ==> !G0[c].isVisited && G0[c].previousNode == None
    requires G1 == G0[start := G0[start].(isVisited := true)]
    ensures Queued(G1, start, [], {}, map[], [start]) && Closure(G1, {}, [start]) && MarksOnly(G0, G1)
  {
  }

  /** Taking a wall off the queue: it can only be the start. */
  lemma SkipWall(G: map<Cell, Node>, start: Cell, V: seq<Cell>, VS: set<Cell>, rank: map<Cell, nat>, Q: seq<Cell>)
    requires Queued(G, start, V, VS, rank, Q) && Closure(G, VS, Q)
    requires Q != [] && G[Q[0]].isWall
    ensures Q[0] == start
    ensures Queued(G, start, V, VS, rank, Q[1..]) && Closure(G, VS, Q[1..])
  {
    FrontPops(Q);
  }

  /** Listing the open cell `c` keeps the tree: the start comes first, and
      any later cell is linked back to a cell listed before it. */
  lemma ListKeepsTree(G: map<Cell, Node>, start: Cell, V: seq<Cell>, VS: set<Cell>, rank: map<Cell, nat>, c: Cell)
    requires start in G && VisitList(V, VS, rank) && StartTree(G, start, V, VS, rank) && Pending(G, VS)
    requires c in G && c !in VS && !G[c].isWall
    requires |V| == 0 ==> c == start
    requires |V| > 0 ==> c != start && G[c].previousNode.Some?
    ensures StartTree(G, start, V + [c], VS + {c}, rank[c := |V|])
  {
    var V', VS', rank' := V + [c], VS + {c}, rank[c := |V|];
    VisitKeepsList(V, VS, rank, c);
    if |V| == 0 {
      assert VS == {};
      assert G[start].previousNode == None;
    } else {
      forall x | x in VS' && x != start ensures Linked(G, Back, VS', rank', x) {
        if x != c {
          assert Linked(G, Back, VS, rank, x);
        }
      }
    }
  }

  /** Taking the open node `Q[0]` off the queue and listing it as visited. */
  lemma VisitFront(G: map<Cell, Node>, start: Cell, V: seq<Cell>, VS: set<Cell>, rank: map<Cell, nat>, Q: seq<Cell>)
    requires Queued(G, start, V, VS, rank, Q)
    requires Q != [] && !G[Q[0]].isWall
    ensures Q[0] in G && Q[0] !in VS && (forall x :: x in Q <==> x in Q[1..] || x == Q[0])
    ensures Queued(G, start, V + [Q[0]], VS + {Q[0]}, rank[Q[0] := |V|], Q[1..])
  {
    var c := Q[0];
    FrontPops(Q);
    assert |V| > 0 ==> start in VS;
    ListKeepsTree(G, start, V, VS, rank, c);
  }

  /** What the marking loop does to each node, read off `Discovered`: it
      marks an unmarked neighbour and points it back to `c`, and changes
      nothing else. */
  lemma DiscoveredFacts(G1: map<Cell, Node>, G2: map<Cell, Node>, c: Cell, ns: seq<Cell>)
    requires forall x :: x in G2 <==> x in G1
    requires forall x :: x in G1 ==> G2[x] == Discovered(G1[x], x, c, ns)
    ensures MarksOnly(G1, G2)
    ensures forall x :: x in G1 ==> G2[x].isWall == G1[x].isWall
    ensures forall x :: x in G1 && (G1[x].isVisited || x !in ns) ==> G2[x] == G1[x]
    ensures forall x :: x in G1 && x in ns && !G1[x].isVisited ==>
      G2[x].isVisited && G2[x].previousNode == Some(c)
  {
    forall x | x in G1
      ensures G2[x] == G1[x].(isVisited := G2[x].isVisited, previousNode := G2[x].previousNode)
      ensures G2[x].isWall == G1[x].isWall
      ensures G1[x].isVisited || x !in ns ==> G2[x] == G1[x]
      ensures x in ns && !G1[x].isVisited ==> G2[x].isVisited && G2[x].previousNode == Some(c)
    {
      assert G2[x] == Discovered(G1[x], x, c, ns);
    }
  }

  /** A tree reads only the nodes of its cells. */
  lemma TreeKeeps(G1: map<Cell, Node>, G2: map<Cell, Node>, start: Cell, V: seq<Cell>, VS: set<Cell>,
                  rank: map<Cell, nat>)
    requires StartTree(G1, start, V, VS, rank)
    requires forall x :: x in VS ==> x in G1 && x in G2 && G2[x] == G1[x]
    ensures StartTree(G2, start, V, VS, rank)
  {
    if |V| > 0 {
      forall x | x in VS && x != start ensures Linked(G2, Back, VS, rank, x) {
        assert Linked(G1, Back, VS, rank, x);
      }
    }
  }

  /** The queue after the marking loop still holds each cell at most
      once: the cells it gains were unmarked, so not already queued. */
  lemma QueueOnce(G1: map<Cell, Node>, rest: seq<Cell>, ns: seq<Cell>)
    requires Distinct(ns) && forall i :: 0 <= i < |ns| ==> ns[i] in G1
    requires forall x :: x in rest ==> x in G1 && G1[x].isVisited
    requires forall x :: multiset(rest)[x] <= 1
    ensures forall x :: multiset(rest + Unvisited(G1, ns))[x] <= 1
  {
    var pushed := Unvisited(G1, ns);
    UnvisitedMembers(G1, ns);
    UnvisitedOnce(G1, ns);
    assert multiset(rest + pushed) == multiset(rest) + multiset(pushed);
    forall x ensures multiset(rest + pushed)[x] <= 1 {
      if x in pushed {
        assert x !in multiset(rest);
      } else {
        assert x !in multiset(pushed);
      }
    }
  }

  /** The marking loop from the visited node `c` keeps the invariant, the
      queue growing from `rest` by the unmarked neighbours. */
  lemma DiscoverKeeps(G1: map<Cell, Node>, G2: map<Cell, Node>, start: Cell, V: seq<Cell>, VS: set<Cell>,
                      rank: map<Cell, nat>, rest: seq<Cell>, c: Cell, ns: seq<Cell>, Q2: seq<Cell>)
    requires Queued(G1, start, V, VS, rank, rest) && c in VS
    requires Distinct(ns) && forall i :: 0 <= i < |ns| ==> ns[i] in G1
    requires forall n :: n in ns <==> n in G1 && Adjacent(c, n) && !G1[n].isWall
    requires forall x :: x in G2 <==> x in G1
    requires forall x :: x in G1 ==> G2[x] == Discovered(G1[x], x, c, ns)
    requires Q2 == rest + Unvisited(G1, ns)
    ensures Queued(G2, start, V, VS, rank, Q2) && MarksOnly(G1, G2)
  {
    DiscoveredFacts(G1, G2, c, ns);
    UnvisitedMembers(G1, ns);
    QueueOnce(G1, rest, ns);
    assert forall x :: x in Q2 <==> x in rest || (x in ns && !G1[x].isVisited);
    TreeKeeps(G1, G2, start, V, VS, rank);
    DiscoverMarks(G1, G2, start, VS, rest, c, ns, Q2);
  }

  /** The marking loop keeps the marks. */
  lemma DiscoverMarks(G1: map<Cell, Node>, G2: map<Cell, Node>, start: Cell, VS: set<Cell>, rest: seq<Cell>,
                      c: Cell, ns: seq<Cell>, Q2: seq<Cell>)
    requires QueueMarks(G1, start, VS, rest) && c in VS
    requires forall n :: n in ns <==> n in G1 && Adjacent(c, n) && !G1[n].isWall
    requires forall x :: x in G2 <==> x in G1
    requires forall x :: x in G1 ==> G2[x].isWall == G1[x].isWall
    requires forall x :: x in G1 && (G1[x].isVisited || x !in ns) ==> G2[x] == G1[x]
    requires forall x :: x in G1 && x in ns && !G1[x].isVisited ==>
      G2[x].isVisited && G2[x].previousNode == Some(c)
    requires forall x :: x in Q2 <==> x in rest || (x in ns && !G1[x].isVisited)
    ensures QueueMarks(G2, start, VS, Q2)
  {
    forall x | x in G2
      ensures G2[x].isVisited <==> x in VS || x in Q2 || x == start
      ensures !G2[x].isVisited ==> G2[x].previousNode == None
      ensures x in Q2 && x != start ==> !G2[x].isWall && G2[x].previousNode.Some?
      ensures x !in VS && G2[x].previousNode.Some? ==>
        G2[x].previousNode.value in VS && Adjacent(G2[x].previousNode.value, x)
    {
      if G1[x].isVisited || x !in ns {
        assert G2[x] == G1[x];
      } else {
        assert G2[x].previousNode == Some(c);
      }
    }
  }

  /** The marking loop closes the invariant over the node `c` just visited:
      each of its open neighbours is visited or now queued. */
  lemma DiscoverCloses(G1: map<Cell, Node>, G2: map<Cell, Node>, start: Cell, VS: set<Cell>, F: seq<Cell>,
                       rest: seq<Cell>, c: Cell, ns: seq<Cell>, Q2: seq<Cell>)
    requires Closure(G1, VS, F) && c in G1 && start in G1
    requires forall x :: x in F <==> x in rest || x == c
    requires QueueMarks(G1, start, VS + {c}, rest)
    requires !G1[start].isWall ==> start in VS + {c} || start in rest
    requires forall n :: n in ns <==> n in G1 && Adjacent(c, n) && !G1[n].isWall
    requires forall x :: x in G2 <==> x in G1
    requires forall x :: x in G1 ==> G2[x].isWall == G1[x].isWall
    requires forall x :: x in Q2 <==> x in rest || (x in ns && !G1[x].isVisited)
    ensures Closure(G2, VS + {c}, Q2)
  {
    var VS' := VS + {c};
    forall v, n | v in VS' && n in G2 && Adjacent(v, n) && !G2[n].isWall ensures n in VS' || n in Q2 {
      if v != c {
        assert n in VS || n in F;
      } else {
        assert n in ns;
      }
    }
  }

  /** A node is marked exactly when it is the start, is listed as visited,
      or is linked back to a node listed as visited: `bfs` marks a node when
      it first reaches it from a visited node. */
  ghost predicate MarkedOnReach(grid: array2<Node>, start: Cell, visited: seq<Cell>)
    reads grid
  {
    forall c :: InBounds(grid, c) ==>
      (At(grid, c).isVisited <==>
        c == start || c in visited ||
        (At(grid, c).previousNode.Some? && At(grid, c).previousNode.value in visited))
  }

  lemma QueuedMarks(grid: array2<Node>, start: Cell, V: seq<Cell>, VS: set<Cell>, rank: map<Cell, nat>, Q: seq<Cell>)
    requires Queued(View(grid), start, V, VS, rank, Q)
    ensures MarkedOnReach(grid, start, V)
  {
    var G := View(grid);
    forall c | InBounds(grid, c)
      ensures At(grid, c).isVisited <==>
        c == start || c in V || (At(grid, c).previousNode.Some? && At(grid, c).previousNode.value in V)
    {
      assert G[c] == At(grid, c);
      if At(grid, c).previousNode.Some? && c !in VS {
        assert At(grid, c).previousNode.value in VS;
      }
    }
  }

  /** The marking loop from the node `c` just taken off the queue `F` and
      listed as visited keeps the invariant and its closure. */
  lemma DiscoverStep(G1: map<Cell, Node>, G2: map<Cell, Node>, start: Cell, V: seq<Cell>, VS: set<Cell>,
                     rank: map<Cell, nat>, F: seq<Cell>, c: Cell, ns: seq<Cell>, Q2: seq<Cell>)
    requires F != [] && c == F[0] && (forall x :: x in F <==> x in F[1..] || x == c)
    requires Queued(G1, start, V, VS + {c}, rank, F[1..]) && Closure(G1, VS, F)
    requires Distinct(ns) && forall i :: 0 <= i < |ns| ==> ns[i] in G1
    requires forall n :: n in ns <==> n in G1 && Adjacent(c, n) && !G1[n].isWall
    requires forall x :: x in G2 <==> x in G1
    requires forall x :: x in G1 ==> G2[x] == Discovered(G1[x], x, c, ns)
    requires Q2 == F[1..] + Unvisited(G1, ns)
    ensures Queued(G2, start, V, VS + {c}, rank, Q2) && Closure(G2, VS + {c}, Q2)
    ensures MarksOnly(G1, G2)
  {
    DiscoverKeeps(G1, G2, start, V, VS + {c}, rank, F[1..], c, ns, Q2);
    UnvisitedMembers(G1, ns);
    DiscoverCloses(G1, G2, start, VS, F, F[1..], c, ns, Q2);
  }

  /** The result when the finish has just been listed and its path read
      back. */
  lemma FoundResult(grid: array2<Node>, start: Cell, finish: Cell, V: seq<Cell>, VS: set<Cell>,
                    rank: map<Cell, nat>, Q: seq<Cell>, path: seq<Cell>)
    requires Queued(View(grid), start, V, VS, rank, Q)
    requires |V| > 0 && V[|V| - 1] == finish
    requires IsPath(grid, path, start, finish) && Distinct(path) && (forall c :: c in path ==> c in V)
    ensures SoundResult(grid, start, finish, SearchResult(V, path))
    ensures CompleteResult(grid, start, finish, SearchResult(V, path))
    ensures MarkedOnReach(grid, start, V)
  {
    var G := View(grid);
    forall i | 0 <= i < |V| ensures InBounds(grid, V[i]) && !At(grid, V[i]).isWall {
      assert V[i] in VS;
    }
    QueuedMarks(grid, start, V, VS, rank, Q);
  }

  /** The result when the queue runs empty: the visited cells are closed
      under open neighbours, so an open finish outside them is unreachable. */
  lemma ExhaustedResult(grid: array2<Node>, start: Cell, finish: Cell, V: seq<Cell>, VS: set<Cell>,
                        rank: map<Cell, nat>)
    requires Queued(View(grid), start, V, VS, rank, []) && Closure(View(grid), VS, [])
    requires finish !in VS && InBounds(grid, finish)
    ensures SoundResult(grid, start, finish, SearchResult(V, [])) && CompleteResult(grid, start, finish, SearchResult(V, []))
    ensures MarkedOnReach(grid, start, V)
    ensures !At(grid, start).isWall ==> |V| > 0
  {
    var G := View(grid);
    forall i | 0 <= i < |V| ensures InBounds(grid, V[i]) && !At(grid, V[i]).isWall {
      assert V[i] in VS;
    }
    QueuedMarks(grid, start, V, VS, rank, []);
    if !At(grid, start).isWall && !At(grid, finish).isWall {
      assert start in VS;
      assert Closed(grid, VS) by {
        forall v, n | v in VS && InBounds(grid, n) && Adjacent(v, n) && !At(grid, n).isWall ensures n in VS {
          assert n in G;
        }
      }
      ClosedSetSeparates(grid, VS, start, finish);
    }
  }

  /** The breadth-first layers, `depth` giving each marked cell the number
      of links back to the start. */
  ghost predicate Layered(G: map<Cell, Node>, start: Cell, VS: set<Cell>, Q: seq<Cell>, depth: map<Cell, nat>) {
    && LayerSpan(start, VS, Q, depth)
    && LayerOrder(VS, Q, depth)
    && LayerSteps(G, VS, depth)
    && LayerLinks(G, start, depth)
  }

  /** The cells with a depth are the start, the visited cells and the
      queued ones; the start is at depth 0. */
  ghost predicate LayerSpan(start: Cell, VS: set<Cell>, Q: seq<Cell>, depth: map<Cell, nat>) {
    && start in depth && depth[start] == 0
    && (forall x :: x in depth ==> x in VS || x in Q || x == start)
    && (forall x :: x in VS ==> x in depth)
    && (forall x :: x in Q ==> x in depth)
  }

  /** The queue runs in nondecreasing depth, over at most two consecutive
      depths, none below a visited cell's. */
  ghost predicate LayerOrder(VS: set<Cell>, Q: seq<Cell>, depth: map<Cell, nat>)
    requires forall x :: x in VS ==> x in depth
    requires forall x :: x in Q ==> x in depth
  {
    && (forall i, j :: 0 <= i < j < |Q| ==> depth[Q[i]] <= depth[Q[j]])
    && (forall i :: 0 <= i < |Q| ==> depth[Q[i]] <= depth[Q[0]] + 1)
    && (forall v, x :: v in VS && x in Q ==> depth[v] <= depth[x])
  }

  /** An open neighbour of a visited cell is at most one level deeper. */
  ghost predicate LayerSteps(G: map<Cell, Node>, VS: set<Cell>, depth: map<Cell, nat>)
    requires forall x :: x in VS ==> x in depth
  {
    forall u, n :: u in VS && n in G && Adjacent(u, n) && !G[n].isWall ==> n in depth && depth[n] <= depth[u] + 1
  }

  /** A link goes one level up. */
  ghost predicate LayerLinks(G: map<Cell, Node>, start: Cell, depth: map<Cell, nat>) {
    forall x :: x in depth && x != start && x in G && G[x].previousNode.Some? ==>
      G[x].previousNode.value in depth && depth[x] == depth[G[x].previousNode.value] + 1
  }

  /** Lines 155-156: the start alone is queued, at depth 0. */
  lemma InitialLayered(G: map<Cell, Node>, start: Cell)
    ensures Layered(G, start, {}, [start], map[start := 0])
  {
  }

  /** A wall taken off the queue leaves the layers of the rest. */
  lemma SkipLayered(G: map<Cell, Node>, start: Cell, VS: set<Cell>, Q: seq<Cell>, depth: map<Cell, nat>)
    requires Layered(G, start, VS, Q, depth) && Q != [] && Q[0] == start
    ensures Layered(G, start, VS, Q[1..], depth)
  {
    var R := Q[1..];
    assert forall x :: x in Q ==> x in R || x == start by {
      assert Q == [Q[0]] + R;
    }
    forall x | x in R ensures x in Q && x in depth {
      var i :| 0 <= i < |R| && R[i] == x;
      assert Q[i + 1] == x;
    }
    forall i, j | 0 <= i < j < |R| ensures depth[R[i]] <= depth[R[j]] {
      assert R[i] == Q[i + 1] && R[j] == Q[j + 1];
    }
    forall i | 0 <= i < |R| ensures depth[R[i]] <= depth[R[0]] + 1 {
      assert R[i] == Q[i + 1] && R[0] == Q[1];
      assert depth[Q[0]] <= depth[Q[1]];
    }
  }

  /** The marking loop from the node `c` just taken off the front of `F`
      (lines 162-169): the neighbours it queues get one more than `c`'s
      depth, which is the least on the queue, and their links point to
      `c`. */
  lemma LayersStep(G1: map<Cell, Node>, G2: map<Cell, Node>, start: Cell, VS: set<Cell>, F: seq<Cell>, c: Cell,
                   ns: seq<Cell>, Q2: seq<Cell>, depth: map<Cell, nat>)
    returns (depth': map<Cell, nat>)
    requires Layered(G1, start, VS, F, depth) && F != [] && c == F[0] && c !in VS
    requires forall x :: x in F <==> x in F[1..] || x == c
    requires forall x :: x in G1 ==> (G1[x].isVisited <==> x in VS || x == c || x in F[1..] || x == start)
    requires forall n :: n in ns <==> n in G1 && Adjacent(c, n) && !G1[n].isWall
    requires forall x :: x in G2 <==> x in G1
    requires forall x :: x in G1 ==> G2[x].isWall == G1[x].isWall
    requires forall x :: x in G1 && (G1[x].isVisited || x !in ns) ==> G2[x] == G1[x]
    requires forall x :: x in G1 && x in ns && !G1[x].isVisited ==> G2[x].previousNode == Some(c)
    requires Q2 == F[1..] + Unvisited(G1, ns)
    requires forall x :: x in Unvisited(G1, ns) <==> x in ns && !G1[x].isVisited
    ensures Layered(G2, start, VS + {c}, Q2, depth')
  {
    var d := depth[c];
    depth' := depth + map n | n in ns && !G1[n].isVisited :: d + 1;
    assert forall x :: x in depth ==> x in VS || x in F[1..] || x == c || x == start;
    LayersOrder(depth, depth', d, F, Unvisited(G1, ns), Q2);
    LayersNeighbours(G1, G2, start, VS, F, c, ns, depth, depth');
    LayersLinks(G1, G2, start, c, ns, depth, depth');
  }

  /** The queue after one step is the old queue without its front, then
      the cells queued one level below the front. */
  lemma LayersOrder(depth: map<Cell, nat>, depth': map<Cell, nat>, d: nat, F: seq<Cell>, P: seq<Cell>, Q2: seq<Cell>)
    requires F != [] && Q2 == F[1..] + P
    requires forall x :: x in F ==> x in depth
    requires forall i, j :: 0 <= i < j < |F| ==> depth[F[i]] <= depth[F[j]]
    requires forall i :: 0 <= i < |F| ==> depth[F[i]] <= depth[F[0]] + 1
    requires d == depth[F[0]]
    requires forall x :: x in depth ==> x in depth' && depth'[x] == depth[x]
    requires forall x :: x in P ==> x in depth' && depth'[x] == d + 1
    ensures forall x :: x in Q2 ==> x in depth'
    ensures forall i, j :: 0 <= i < j < |Q2| ==> depth'[Q2[i]] <= depth'[Q2[j]]
    ensures forall i :: 0 <= i < |Q2| ==> depth'[Q2[i]] <= depth'[Q2[0]] + 1
    ensures forall x :: x in Q2 ==> d <= depth'[x]
  {
    var R := F[1..];
    forall x | x in R ensures d <= depth'[x] <= d + 1 {
      var i :| 0 <= i < |R| && R[i] == x;
      assert F[i + 1] == x;
    }
    forall x | x in Q2 ensures x in depth' && d <= depth'[x] <= d + 1 {
      assert x in R || x in P;
    }
    forall i, j | 0 <= i < j < |Q2| ensures depth'[Q2[i]] <= depth'[Q2[j]] {
      if j < |R| {
        assert Q2[i] == F[i + 1] && Q2[j] == F[j + 1];
      } else if i < |R| {
        assert Q2[i] in R && Q2[j] == P[j - |R|];
      } else {
        assert Q2[i] == P[i - |R|] && Q2[j] == P[j - |R|];
      }
    }
    forall i | 0 <= i < |Q2| ensures depth'[Q2[i]] <= depth'[Q2[0]] + 1 {
      assert Q2[0] in Q2 && Q2[i] in Q2;
    }
  }

  /** An open neighbour of a visited cell stays at most one level below it;
      `c`'s own open neighbours are either already marked, hence no deeper
      than the queue, or queued at one below `c`. */
  lemma LayersNeighbours(G1: map<Cell, Node>, G2: map<Cell, Node>, start: Cell, VS: set<Cell>, F: seq<Cell>,
                         c: Cell, ns: seq<Cell>, depth: map<Cell, nat>, depth': map<Cell, nat>)
    requires Layered(G1, start, VS, F, depth) && F != [] && c == F[0]
    requires forall x :: x in G1 ==> (G1[x].isVisited <==> x in VS || x == c || x in F[1..] || x == start)
    requires forall n :: n in ns <==> n in G1 && Adjacent(c, n) && !G1[n].isWall
    requires forall x :: x in G2 <==> x in G1
    requires forall x :: x in G1 ==> G2[x].isWall == G1[x].isWall
    requires forall x :: x in depth ==> x in depth' && depth'[x] == depth[x]
    requires forall x :: x in ns && !G1[x].isVisited ==> x in depth' && depth'[x] == depth[c] + 1
    ensures forall u, n :: u in VS + {c} && n in G2 && Adjacent(u, n) && !G2[n].isWall ==>
      n in depth' && depth'[n] <= depth'[u] + 1
  {
    forall u, n | u in VS + {c} && n in G2 && Adjacent(u, n) && !G2[n].isWall
      ensures n in depth' && depth'[n] <= depth'[u] + 1
    {
      if u == c {
        assert n in ns;
        if G1[n].isVisited {
          if n in VS {
            assert depth[n] <= depth[c];
          } else if n in F[1..] {
            var i :| 0 <= i < |F[1..]| && F[1..][i] == n;
            assert F[i + 1] == n;
          }
        }
      }
    }
  }

  /** The new links point from the queued cells to `c`, one level up; the
      old links are untouched. */
  lemma LayersLinks(G1: map<Cell, Node>, G2: map<Cell, Node>, start: Cell, c: Cell, ns: seq<Cell>,
                    depth: map<Cell, nat>, depth': map<Cell, nat>)
    requires c in depth
    requires forall x :: x in depth && x != start && x in G1 && G1[x].previousNode.Some? ==>
      G1[x].previousNode.value in depth && depth[x] == depth[G1[x].previousNode.value] + 1
    requires forall x :: x in depth ==> x in G1 ==> G1[x].isVisited
    requires forall x :: x in depth' <==> x in depth || (x in ns && x in G1 && !G1[x].isVisited)
    requires forall x :: x in depth ==> depth'[x] == depth[x]
    requires forall x :: x in ns && x in G1 && !G1[x].isVisited ==> depth'[x] == depth[c] + 1
    requires forall x :: x in G2 <==> x in G1
    requires forall x :: x in G1 && (G1[x].isVisited || x !in ns) ==> G2[x] == G1[x]
    requires forall x :: x in G1 && x in ns && !G1[x].isVisited ==> G2[x].previousNode == Some(c)
    ensures forall x :: x in depth' && x != start && x in G2 && G2[x].previousNode.Some? ==>
      G2[x].previousNode.value in depth' && depth'[x] == depth'[G2[x].previousNode.value] + 1
  {
    forall x | x in depth' && x != start && x in G2 && G2[x].previousNode.Some?
      ensures G2[x].previousNode.value in depth' && depth'[x] == depth'[G2[x].previousNode.value] + 1
    {
      if x !in depth {
        assert x in ns && !G1[x].isVisited;
      } else {
        assert G1[x].isVisited;
      }
    }
  }

  /** Along a walk from the start whose cells are visited up to index `i`,
      each step goes at most one level deeper. */
  lemma {:induction false} LayerPrefix(G: map<Cell, Node>, start: Cell, VS: set<Cell>, Q: seq<Cell>,
                                       depth: map<Cell, nat>, p: seq<Cell>, i: nat)
    requires Layered(G, start, VS, Q, depth) && (forall x :: x in VS ==> x in G && !G[x].isWall)
    requires i < |p| && p[0] == start
    requires forall k :: 0 <= k < |p| - 1 ==> Adjacent(p[k], p[k + 1])
    requires forall k :: 0 <= k <= i ==> p[k] in VS
    ensures depth[p[i]] <= i
  {
    if i > 0 {
      LayerPrefix(G, start, VS, Q, depth, p, i - 1);
      assert Adjacent(p[i - 1], p[i]);
    }
  }

  /** When the open finish is at the front of the queue, every walk from the
      start to it takes at least its depth in steps: the walk either stays
      on visited cells, a level at most per step, or first leaves them for
      a queued cell, which is no shallower than the front. */
  lemma FewestSteps(grid: array2<Node>, start: Cell, finish: Cell, V: seq<Cell>, VS: set<Cell>,
                    rank: map<Cell, nat>, Q: seq<Cell>, depth: map<Cell, nat>, p: seq<Cell>)
    requires Queued(View(grid), start, V, VS, rank, Q) && Layered(View(grid), start, VS, Q, depth)
    requires Q != [] && Q[0] == finish && InBounds(grid, finish) && !At(grid, finish).isWall
    requires IsPath(grid, p, start, finish)
    ensures depth[finish] <= |p| - 1
  {
    var G := View(grid);
    if |V| == 0 {
      assert finish == start;
      return;
    }
    assert start in VS && finish !in VS;
    var k := 0;
    while k < |p| && p[k] in VS
      invariant 0 <= k <= |p|
      invariant forall i :: 0 <= i < k ==> p[i] in VS
    {
      k := k + 1;
    }
    assert 0 < k < |p|;
    LayerPrefix(G, start, VS, Q, depth, p, k - 1);
    var n := p[k];
    assert Adjacent(p[k - 1], n) && n in G;
    assert !G[n].isWall;
    if n != finish {
      assert n in Q;
      var i :| 0 <= i < |Q| && Q[i] == n;
      if i > 0 {
        assert depth[Q[0]] <= depth[Q[i]];
      }
    }
  }

  /** Following the links back along `path` from the start adds one level
      per step. */
  lemma {:induction false} ChainDepth(G: map<Cell, Node>, start: Cell, VS: set<Cell>, Q: seq<Cell>,
                                      depth: map<Cell, nat>, path: seq<Cell>)
    requires Layered(G, start, VS, Q, depth) && |path| > 0 && path[0] == start && Distinct(path)
    requires forall i :: 0 <= i < |path| ==> path[i] in depth && path[i] in G
    requires forall i :: 0 <= i < |path| - 1 ==> G[path[i + 1]].previousNode == Some(path[i])
    ensures depth[path[|path| - 1]] == |path| - 1
  {
    if |path| > 1 {
      var init := path[..|path| - 1];
      assert Distinct(init) by {
        forall i, j | 0 <= i < j < |init| ensures init[i] != init[j] {
          assert init[i] == path[i] && init[j] == path[j];
        }
      }
      ChainDepth(G, start, VS, Q, depth, init);
      assert path[|path| - 1] != path[0];
    }
  }

  /** The path read back along the links has one cell per level, so no walk
      from the start to the finish is shorter. */
  lemma FewestFound(grid: array2<Node>, start: Cell, finish: Cell, V: seq<Cell>, VS: set<Cell>,
                    rank: map<Cell, nat>, Q: seq<Cell>, depth: map<Cell, nat>, path: seq<Cell>)
    requires Queued(View(grid), start, V, VS, rank, Q) && Layered(View(grid), start, VS, Q, depth)
    requires Q != [] && Q[0] == finish && InBounds(grid, finish) && !At(grid, finish).isWall
    requires |path| > 0 && path[0] == start && path[|path| - 1] == finish && Distinct(path)
    requires forall i :: 0 <= i < |path| ==> path[i] in depth && path[i] in View(grid)
    requires forall i :: 0 <= i < |path| - 1 ==> View(grid)[path[i + 1]].previousNode == Some(path[i])
    ensures forall p :: IsPath(grid, p, start, finish) ==> |path| <= |p|
  {
    ChainDepth(View(grid), start, VS, Q, depth, path);
    forall p | IsPath(grid, p, start, finish) ensures |path| <= |p| {
      FewestSteps(grid, start, finish, V, VS, rank, Q, depth, p);
    }
  }

  /** Line 161: the finish has just been listed; read its path back. */
  method FinishPath(grid: array2<Node>, startNode: Cell, finishNode: Cell, visited: seq<Cell>, ghost VS: set<Cell>,
                    ghost rank: map<Cell, nat>, ghost Q: seq<Cell>)
    returns (path: seq<Cell>)
    requires Queued(View(grid), startNode, visited, VS, rank, Q)
    requires |visited| > 0 && visited[|visited| - 1] == finishNode
    ensures SoundResult(grid, startNode, finishNode, SearchResult(visited, path))
    ensures CompleteResult(grid, startNode, finishNode, SearchResult(visited, path))
    ensures MarkedOnReach(grid, startNode, visited)
    ensures forall i :: 0 <= i < |path| - 1 ==> At(grid, path[i + 1]).previousNode == Some(path[i])
  {
    assert finishNode in VS;
    path := TracePath(grid, startNode, finishNode, VS, rank);
    FoundResult(grid, startNode, finishNode, visited, VS, rank, Q, path);
  }

  /** Lines 160-169: list the open node `currentNode` just taken off the
      queue; return the path when it is the finish, and otherwise mark and
      queue its unmarked neighbours. */
  method VisitFirst(grid: array2<Node>, startNode: Cell, finishNode: Cell, visitedNodesInOrder: seq<Cell>,
                    queue: seq<Cell>, ghost VS: set<Cell>, ghost rank: map<Cell, nat>, ghost depth: map<Cell, nat>)
    returns (visited: seq<Cell>, queue': seq<Cell>, path: Option<seq<Cell>>, ghost depth': map<Cell, nat>)
    modifies grid
    requires Queued(View(grid), startNode, visitedNodesInOrder, VS, rank, queue) && Closure(View(grid), VS, queue)
    requires Layered(View(grid), startNode, VS, queue, depth)
    requires queue != [] && InBounds(grid, queue[0]) && !At(grid, queue[0]).isWall
    ensures visited == visitedNodesInOrder + [queue[0]] && queue[0] !in VS
    ensures MarksOnly(old(View(grid)), View(grid))
    ensures path.Some? ==> (queue[0] == finishNode
      && SoundResult(grid, startNode, finishNode, SearchResult(visited, path.value))
      && CompleteResult(grid, startNode, finishNode, SearchResult(visited, path.value))
      && MarkedOnReach(grid, startNode, visited)
      && forall p :: IsPath(grid, p, startNode, finishNode) ==> |path.value| <= |p|)
    ensures path.None? ==> (queue[0] != finishNode
      && Queued(View(grid), startNode, visited, VS + {queue[0]}, rank[queue[0] := |visitedNodesInOrder|], queue')
      && Closure(View(grid), VS + {queue[0]}, queue')
      && Layered(View(grid), startNode, VS + {queue[0]}, queue', depth'))
  {
    ghost var G1 := View(grid);
    var currentNode := queue[0];
    VisitFront(G1, startNode, visitedNodesInOrder, VS, rank, queue);
    visited := visitedNodesInOrder + [currentNode];
    ghost var VS', rank' := VS + {currentNode}, rank[currentNode := |visitedNodesInOrder|];
    if currentNode == finishNode {
      var p := FinishPath(grid, startNode, finishNode, visited, VS', rank', queue[1..]);
      forall i | 0 <= i < |p| ensures p[i] in depth && p[i] in G1 {
        assert p[i] in visited;
      }
      FewestFound(grid, startNode, finishNode, visitedNodesInOrder, VS, rank, queue, depth, p);
      return visited, queue, Some(p), depth;
    }
    var neighbors := GetNeighbors(grid, currentNode);
    NeighborsDistinct(grid, currentNode);
    queue' := DiscoverNeighbors(grid, currentNode, neighbors, queue[1..]);
    DiscoverStep(G1, View(grid), startNode, visited, VS, rank', queue, currentNode, neighbors, queue');
    DiscoveredFacts(G1, View(grid), currentNode, neighbors);
    UnvisitedMembers(G1, neighbors);
    depth' := LayersStep(G1, View(grid), startNode, VS, queue, currentNode, neighbors, queue', depth);
    path := None;
  }

  /** Lines 158-169, one pass of the main loop. Each pass lists a new cell
      or shortens the queue. */
  method BfsPass(grid: array2<Node>, startNode: Cell, finishNode: Cell, queue: seq<Cell>,
                 visitedNodesInOrder: seq<Cell>, ghost VS: set<Cell>, ghost rank: map<Cell, nat>,
                 ghost depth: map<Cell, nat>)
    returns (queue': seq<Cell>, visited: seq<Cell>, path: Option<seq<Cell>>, ghost VS': set<Cell>,
             ghost rank': map<Cell, nat>, ghost depth': map<Cell, nat>)
    modifies grid
    requires queue != []
    requires Queued(View(grid), startNode, visitedNodesInOrder, VS, rank, queue) && Closure(View(grid), VS, queue)
    requires Layered(View(grid), startNode, VS, queue, depth)
    requires finishNode !in VS && VS <= AllCells(grid)
    ensures MarksOnly(old(View(grid)), View(grid))
    ensures path.Some? ==> (SoundResult(grid, startNode, finishNode, SearchResult(visited, path.value))
      && CompleteResult(grid, startNode, finishNode, SearchResult(visited, path.value))
      && MarkedOnReach(grid, startNode, visited) && |visited| > 0
      && forall p :: IsPath(grid, p, startNode, finishNode) ==> |path.value| <= |p|)
    ensures path.None? ==> (Queued(View(grid), startNode, visited, VS', rank', queue')
      && Closure(View(grid), VS', queue') && finishNode !in VS' && VS' <= AllCells(grid)
      && Layered(View(grid), startNode, VS', queue', depth'))
    ensures path.None? ==> (|AllCells(grid) - VS'| < |AllCells(grid) - VS|
      || (VS' == VS && |queue'| < |queue|))
  {
    visited, VS', rank', depth' := visitedNodesInOrder, VS, rank, depth;
    var currentNode := queue[0];
    if At(grid, currentNode).isWall {
      SkipWall(View(grid), startNode, visitedNodesInOrder, VS, rank, queue);
      SkipLayered(View(grid), startNode, VS, queue, depth);
      return queue[1..], visited, None, VS', rank', depth';
    }
    visited, queue', path, depth' :=
      VisitFirst(grid, startNode, finishNode, visitedNodesInOrder, queue, VS, rank, depth);
    MissingShrinks(AllCells(grid), VS, currentNode);
    VS', rank' := VS + {currentNode}, rank[currentNode := |visitedNodesInOrder|];
  }

  method Bfs(grid: array2<Node>, startNode: Cell, finishNode: Cell) returns (result: SearchResult)
    modifies grid
    requires InBounds(grid, startNode) && InBounds(grid, finishNode) && Clean(grid) && Shaped(grid)
    ensures MarksOnly(old(View(grid)), View(grid))
    ensures SoundResult(grid, startNode, finishNode, result) && CompleteResult(grid, startNode, finishNode, result)
    ensures MarkedOnReach(grid, startNode, result.visitedNodesInOrder)
    ensures !At(grid, startNode).isWall ==> |result.visitedNodesInOrder| > 0
    ensures result.path != [] ==> forall p :: IsPath(grid, p, startNode, finishNode) ==> |result.path| <= |p|
  {
    ghost var G0 := View(grid);
    var visitedNodesInOrder: seq<Cell> := [];
    var queue := [startNode];
    MarkVisited(grid, startNode);
    InitialQueued(G0, View(grid), startNode);
    ghost var VS: set<Cell> := {};
    ghost var rank: map<Cell, nat> := map[];
    ghost var depth: map<Cell, nat> := map[startNode := 0];
    InitialLayered(View(grid), startNode);
    while |queue| > 0
      invariant MarksOnly(G0, View(grid))
      invariant Queued(View(grid), startNode, visitedNodesInOrder, VS, rank, queue)
      invariant Closure(View(grid), VS, queue)
      invariant Layered(View(grid), startNode, VS, queue, depth)
      invariant finishNode !in VS && VS <= AllCells(grid)
      decreases |AllCells(grid) - VS|, |queue|
    {
      ghost var G := View(grid);
      var path;
      queue, visitedNodesInOrder, path, VS, rank, depth :=
        BfsPass(grid, startNode, finishNode, queue, visitedNodesInOrder, VS, rank, depth);
      MarksOnlyTrans(G0, G, View(grid));
      if path.Some? {
        return SearchResult(visitedNodesInOrder, path.value);
      }
    }
    ExhaustedResult(grid, startNode, finishNode, visitedNodesInOrder, VS, rank);
    return SearchResult(visitedNodesInOrder, []);
  }
}
