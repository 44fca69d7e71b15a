/** `bidirectionalBFS(grid, startNode, finishNode)` and
    `mergeBidirectionalPath` (algorithms.js, lines 194-252): two
    breadth-first searches, one from the start linking nodes back through
    `previousNode` and one from the finish linking them on through
    `nextNode`, each with its own queue and its own set of reached cells.
    Every pass of the main loop takes one node off each queue, start side
    first; the search stops when a side reaches a cell the other side has
    already reached. The per-node `isVisited` flag is only written, never
    read, so the search runs from any earlier state of the grid. */
module Bidirectional {
  import opened Wrappers
  import opened Nodes
  import opened Helpers
  import opened Trees

  /** The side that is not `side`. */
  function Other(side: Side): (o: Side)
    ensures o != side
  {
    match side
    case Back => Ahead
    case Ahead => Back
  }

  /** `n` with the link of `side` set to `l`: `previousNode` on the start
      side, `nextNode` on the end side; nothing else changes. */
  function WithLink(side: Side, n: Node, l: Option<Cell>): (m: Node)
    ensures Link(side, m) == l && Link(Other(side), m) == Link(Other(side), n)
    ensures Bare(m) == Bare(n) && m.isVisited == n.isVisited && m.isWall == n.isWall
  {
    match side
    case Back => n.(previousNode := l)
    case Ahead => n.(nextNode := l)
  }

  /** `node.previousNode = l` or `node.nextNode = l` on the node at `c`. */
  method SetLink(grid: array2<Node>, side: Side, c: Cell, l: Option<Cell>)
    modifies grid
    requires InBounds(grid, c)
    ensures View(grid) == old(View(grid))[c := WithLink(side, old(View(grid))[c], l)]
  {
    grid[c.row, c.col] := WithLink(side, grid[c.row, c.col], l);
  }

  /** Where the neighbour loop of one side stops: at the first neighbour
      this side has not reached and the other side has, or after the last
      neighbour when there is none. */
  function Cut(ns: seq<Cell>, mine: set<Cell>, other: set<Cell>): (k: nat)
    ensures k <= |ns|
    ensures forall i :: 0 <= i < k ==> ns[i] in mine || ns[i] !in other
    ensures k < |ns| ==> ns[k] !in mine && ns[k] in other
  {
    if ns == [] then 0
    else if ns[0] !in mine && ns[0] in other then 0
    else 1 + Cut(ns[1..], mine, other)
  }

  /** The cells of `ns` outside `S`, in order: the cells a side queues. */
  ghost function Outside(ns: seq<Cell>, S: set<Cell>): seq<Cell> {
    if ns == [] then []
    else
      var last := ns[|ns| - 1];
      Outside(ns[..|ns| - 1], S) + (if last in S then [] else [last])
  }

  lemma {:induction false} OutsideMembers(ns: seq<Cell>, S: set<Cell>)
    ensures forall n :: n in Outside(ns, S) <==> n in ns && n !in S
  {
    if ns != [] {
      var init := ns[..|ns| - 1];
      OutsideMembers(init, S);
      assert ns == init + [ns[|ns| - 1]];
    }
  }

  lemma {:induction false} OutsideOnce(ns: seq<Cell>, S: set<Cell>)
    requires Distinct(ns)
    ensures forall x :: multiset(Outside(ns, S))[x] <= 1
  {
    if ns != [] {
      var init, last := ns[..|ns| - 1], ns[|ns| - 1];
      assert last !in init;
      OutsideOnce(init, S);
      OutsideMembers(init, S);
      assert multiset(Outside(init, S))[last] == 0;
    }
  }

  lemma OutsideStep(ns: seq<Cell>, S: set<Cell>, k: nat)
    requires k < |ns|
    ensures Outside(ns[..k + 1], S) == Outside(ns[..k], S) + (if ns[k] in S then [] else [ns[k]])
  {
    assert ns[..k + 1][..k] == ns[..k];
  }

  /** The node `n` at cell `x` once a side's neighbour loop has run from
      `from` over `ns`: a neighbour the side had not reached now links to
      `from`. */
  function Joined(side: Side, n: Node, x: Cell, from: Cell, ns: seq<Cell>, mine: set<Cell>): Node {
    if x in ns && x !in mine then WithLink(side, n, Some(from)) else n
  }

  lemma JoinedStep(G: map<Cell, Node>, Gk: map<Cell, Node>, Gk1: map<Cell, Node>, side: Side, from: Cell,
                   ns: seq<Cell>, mine: set<Cell>, k: nat)
    requires k < |ns| && Distinct(ns) && ns[k] in G && ns[k] !in mine
    requires forall x :: x in G ==> x in Gk && Gk[x] == Joined(side, G[x], x, from, ns[..k], mine)
    requires Gk1 == Gk[ns[k] := WithLink(side, Gk[ns[k]], Some(from))]
    ensures forall x :: x in G ==> x in Gk1 && Gk1[x] == Joined(side, G[x], x, from, ns[..k + 1], mine)
  {
    assert ns[k] !in ns[..k];
    forall x | x in G
      ensures x in Gk1 && Gk1[x] == Joined(side, G[x], x, from, ns[..k + 1], mine)
    {
      assert x in ns[..k + 1] <==> x in ns[..k] || x == ns[k];
    }
  }

  /** The neighbour loop after its first `k` neighbours, with `G` the view
      before it and `Gk` the view now: `k` has not passed the cut, the set
      holds the side's cells and the neighbours seen, the queue has gained
      the neighbours seen outside the side, and each of those now links to
      `from`. */
  ghost predicate Reached(G: map<Cell, Node>, Gk: map<Cell, Node>, side: Side, from: Cell, ns: seq<Cell>, k: nat,
                          mine: set<Cell>, other: set<Cell>, queue: seq<Cell>, mine': set<Cell>, queue': seq<Cell>) {
    && k <= Cut(ns, mine, other)
    && (forall x :: x in mine' <==> x in mine || x in ns[..k])
    && queue' == queue + Outside(ns[..k], mine)
    && (forall x :: x in Gk <==> x in G)
    && (forall x :: x in G ==> Gk[x] == Joined(side, G[x], x, from, ns[..k], mine))
  }

  lemma ReachedStart(G: map<Cell, Node>, side: Side, from: Cell, ns: seq<Cell>, mine: set<Cell>, other: set<Cell>,
                     queue: seq<Cell>)
    ensures Reached(G, G, side, from, ns, 0, mine, other, queue, mine, queue)
  {
    assert ns[..0] == [];
  }

  /** A neighbour neither side had reached is linked, added and queued. */
  lemma ReachedLink(G: map<Cell, Node>, Gk: map<Cell, Node>, Gk1: map<Cell, Node>, side: Side, from: Cell,
                    ns: seq<Cell>, k: nat, mine: set<Cell>, other: set<Cell>, queue: seq<Cell>, mine': set<Cell>,
                    queue': seq<Cell>)
    requires Reached(G, Gk, side, from, ns, k, mine, other, queue, mine', queue')
    requires k < |ns| && Distinct(ns) && ns[k] in G && ns[k] !in mine' && ns[k] !in other
    requires Gk1 == Gk[ns[k] := WithLink(side, Gk[ns[k]], Some(from))]
    ensures Reached(G, Gk1, side, from, ns, k + 1, mine, other, queue, mine' + {ns[k]}, queue' + [ns[k]])
  {
    assert ns[k] !in ns[..k];
    assert ns[..k + 1] == ns[..k] + [ns[k]];
    JoinedStep(G, Gk, Gk1, side, from, ns, mine, k);
    OutsideStep(ns, mine, k);
    AppendAssoc(queue, Outside(ns[..k], mine), [ns[k]]);
  }

  /** A neighbour this side had reached changes nothing. */
  lemma ReachedSkip(G: map<Cell, Node>, Gk: map<Cell, Node>, side: Side, from: Cell, ns: seq<Cell>, k: nat,
                    mine: set<Cell>, other: set<Cell>, queue: seq<Cell>, mine': set<Cell>, queue': seq<Cell>)
    requires Reached(G, Gk, side, from, ns, k, mine, other, queue, mine', queue')
    requires k < |ns| && Distinct(ns) && ns[k] in mine'
    ensures Reached(G, Gk, side, from, ns, k + 1, mine, other, queue, mine', queue')
  {
    assert ns[k] !in ns[..k];
    assert ns[..k + 1] == ns[..k] + [ns[k]];
    JoinedStep0(G, side, from, ns, mine, k);
    OutsideStep(ns, mine, k);
  }

  /** The loop stops at the cut: at the first neighbour the other side
      reached first, or after the last one. */
  lemma ReachedEnd(G: map<Cell, Node>, Gk: map<Cell, Node>, side: Side, from: Cell, ns: seq<Cell>, k: nat,
                   mine: set<Cell>, other: set<Cell>, queue: seq<Cell>, mine': set<Cell>, queue': seq<Cell>)
    requires Reached(G, Gk, side, from, ns, k, mine, other, queue, mine', queue')
    requires Distinct(ns) && (k == |ns| || (k < |ns| && ns[k] !in mine' && ns[k] in other))
    ensures k == Cut(ns, mine, other)
  {
    if k < |ns| {
      assert ns[k] !in ns[..k];
    }
  }

  /** Lines 212-219 (start side) and 227-234 (end side): for each open
      neighbour of `currentNode` this side has not reached, stop with it as
      the meeting cell when the other side has reached it, and otherwise
      link it to `currentNode`, add it to this side's set and queue it. */
  method Reach(grid: array2<Node>, side: Side, currentNode: Cell, neighbors: seq<Cell>, mine: set<Cell>,
               other: set<Cell>, queue: seq<Cell>)
    returns (mine': set<Cell>, queue': seq<Cell>, meet: Option<Cell>)
    modifies grid
    requires Distinct(neighbors) && AllInBounds(grid, neighbors)
    ensures Cut(neighbors, mine, other) < |neighbors| ==> meet == Some(neighbors[Cut(neighbors, mine, other)])
    ensures Cut(neighbors, mine, other) == |neighbors| ==> meet == None
    ensures forall x :: x in mine' <==> x in mine || x in neighbors[..Cut(neighbors, mine, other)]
    ensures queue' == queue + Outside(neighbors[..Cut(neighbors, mine, other)], mine)
    ensures forall x :: x in old(View(grid)) ==>
      View(grid)[x] == Joined(side, old(View(grid))[x], x, currentNode, neighbors[..Cut(neighbors, mine, other)], mine)
  {
    ghost var G := View(grid);
    mine', queue' := mine, queue;
    ReachedStart(G, side, currentNode, neighbors, mine, other, queue);
    for k := 0 to |neighbors|
      invariant Reached(G, View(grid), side, currentNode, neighbors, k, mine, other, queue, mine', queue')
    {
      var n := neighbors[k];
      if n !in mine' {
        if n in other {
          ReachedEnd(G, View(grid), side, currentNode, neighbors, k, mine, other, queue, mine', queue');
          return mine', queue', Some(n);
        }
        ghost var Gk := View(grid);
        SetLink(grid, side, n, Some(currentNode));
        ReachedLink(G, Gk, View(grid), side, currentNode, neighbors, k, mine, other, queue, mine', queue');
        mine' := mine' + {n};
        queue' := queue' + [n];
      } else {
        ReachedSkip(G, View(grid), side, currentNode, neighbors, k, mine, other, queue, mine', queue');
      }
    }
    ReachedEnd(G, View(grid), side, currentNode, neighbors, |neighbors|, mine, other, queue, mine', queue');
    meet := None;
  }

  /** A neighbour the side had already reached leaves every node as it
      was. */
  lemma JoinedStep0(G: map<Cell, Node>, side: Side, from: Cell, ns: seq<Cell>, mine: set<Cell>, k: nat)
    requires k < |ns| && ns[k] in mine
    ensures forall x :: x in G ==>
      Joined(side, G[x], x, from, ns[..k + 1], mine) == Joined(side, G[x], x, from, ns[..k], mine)
  {
    forall x | x in G
      ensures Joined(side, G[x], x, from, ns[..k + 1], mine) == Joined(side, G[x], x, from, ns[..k], mine)
    {
      assert x in ns[..k + 1] <==> x in ns[..k] || x == ns[k];
    }
  }

  /** `n` without its mark and its links: the part of a node the
      bidirectional search leaves alone. */
  function Bare(n: Node): (b: Node)
    ensures b.isWall == n.isWall && b.weight == n.weight && b.distance == n.distance
  {
    n.(isVisited := false, previousNode := None, nextNode := None)
  }

  /** Between `G0` and `G1` at most `isVisited`, `previousNode` and
      `nextNode` changed, and a mark once set stays set. */
  ghost predicate LinksOnly(G0: map<Cell, Node>, G1: map<Cell, Node>) {
    forall c :: c in G0 ==> c in G1 && Bare(G1[c]) == Bare(G0[c]) && (G0[c].isVisited ==> G1[c].isVisited)
  }

  lemma LinksOnlyTrans(G0: map<Cell, Node>, G1: map<Cell, Node>, G2: map<Cell, Node>)
    requires LinksOnly(G0, G1) && LinksOnly(G1, G2)
    ensures LinksOnly(G0, G2)
  {
  }

  /** Replacing one node by another with the same bare part and no mark
      cleared changes links and marks only. */
  lemma LinksOnlyUpdate(G0: map<Cell, Node>, c: Cell, n: Node)
    requires c in G0 && Bare(n) == Bare(G0[c]) && (G0[c].isVisited ==> n.isVisited)
    ensures LinksOnly(G0, G0[c := n])
  {
    var G1 := G0[c := n];
    forall x | x in G0 ensures x in G1 && Bare(G1[x]) == Bare(G0[x]) && (G0[x].isVisited ==> G1[x].isVisited) {
      if x != c {
        assert G1[x] == G0[x];
      }
    }
  }

  /** One side's state between passes, with `M` the cells it has reached
      (`startVisited` or `endVisited`), `P` those it has taken off its queue
      and `Q` its queue: the links of `side` form a tree on `M` rooted at
      `root`; `M` is `P` and `Q` together, a queued cell is not yet taken
      and queued once; every open neighbour of a taken cell is reached. */
  ghost predicate Half(G: map<Cell, Node>, side: Side, root: Cell, M: set<Cell>, P: set<Cell>, Q: seq<Cell>,
                       rank: map<Cell, nat>) {
    && Tree(G, side, root, M, rank)
    && (forall x :: x in M <==> x in P || x in Q)
    && (forall x :: x in Q ==> x !in P)
    && (forall x :: multiset(Q)[x] <= 1)
    && (forall v, n :: v in P && n in G && Adjacent(v, n) && !G[n].isWall ==> n in M)
  }

  /** The two sides share no cell, unless the start is the finish. */
  ghost predicate Apart(M1: set<Cell>, M2: set<Cell>, r1: Cell, r2: Cell) {
    forall x :: x in M1 && x in M2 ==> x == r1 && x == r2
  }

  /** The visit list holds the cells taken off either queue, each marked,
      and each once unless the start is the finish. */
  ghost predicate Listed(G: map<Cell, Node>, visited: seq<Cell>, P1: set<Cell>, P2: set<Cell>, r1: Cell, r2: Cell) {
    && (forall x :: x in visited <==> x in P1 || x in P2)
    && (r1 != r2 ==> Distinct(visited))
    && (forall x :: x in visited ==> x in G && G[x].isVisited)
  }

  /** A side's state depends only on its own links and on the walls. */
  lemma HalfKeeps(G1: map<Cell, Node>, G2: map<Cell, Node>, side: Side, root: Cell, M: set<Cell>, P: set<Cell>,
                  Q: seq<Cell>, rank: map<Cell, nat>)
    requires Half(G1, side, root, M, P, Q, rank)
    requires forall x :: x in G2 <==> x in G1
    requires forall x :: x in G1 ==> Link(side, G2[x]) == Link(side, G1[x]) && G2[x].isWall == G1[x].isWall
    ensures Half(G2, side, root, M, P, Q, rank)
  {
    forall c | c in M && c != root ensures Linked(G2, side, M, rank, c) {
      assert Linked(G1, side, M, rank, c);
    }
  }

  /** The tree after the neighbour loop: each newly reached cell links to
      `c`, one rank deeper. */
  lemma TreeGrows(G1: map<Cell, Node>, G2: map<Cell, Node>, side: Side, root: Cell, M: set<Cell>,
                  rank: map<Cell, nat>, c: Cell, ns: seq<Cell>, k: nat, M2: set<Cell>)
    requires Tree(G1, side, root, M, rank) && c in M && k <= |ns|
    requires forall n :: n in ns ==> n in G1 && Adjacent(c, n) && !G1[n].isWall
    requires forall x :: x in G2 <==> x in G1
    requires forall x :: x in G1 ==> G2[x] == Joined(side, G1[x], x, c, ns[..k], M)
    requires forall x :: x in M2 <==> x in M || x in ns[..k]
    ensures Tree(G2, side, root, M2, map x | x in M2 :: if x in M then rank[x] else rank[c] + 1)
  {
    var rank2 := map x | x in M2 :: if x in M then rank[x] else rank[c] + 1;
    assert G2[root] == G1[root];
    forall x | x in M2 && x != root ensures Linked(G2, side, M2, rank2, x) {
      if x in M {
        assert G2[x] == G1[x];
        assert Linked(G1, side, M, rank, x);
      } else {
        assert G2[x] == WithLink(side, G1[x], Some(c));
      }
    }
  }

  /** The queue and the closure after the neighbour loop, when it ran to its
      end. */
  lemma HalfGrows(G1: map<Cell, Node>, G2: map<Cell, Node>, side: Side, root: Cell, M: set<Cell>, P: set<Cell>,
                  Q: seq<Cell>, rank: map<Cell, nat>, ns: seq<Cell>, M2: set<Cell>, rank2: map<Cell, nat>)
    requires Half(G1, side, root, M, P, Q, rank) && Q != []
    requires Distinct(ns) && forall n :: n in ns <==> n in G1 && Adjacent(Q[0], n) && !G1[n].isWall
    requires forall x :: x in G2 <==> x in G1
    requires forall x :: x in G1 ==> G2[x].isWall == G1[x].isWall
    requires forall x :: x in M2 <==> x in M || x in ns
    requires Tree(G2, side, root, M2, rank2)
    ensures Half(G2, side, root, M2, P + {Q[0]}, Q[1..] + Outside(ns, M), rank2)
  {
    var c, Q2 := Q[0], Q[1..] + Outside(ns, M);
    FrontPops(Q);
    OutsideMembers(ns, M);
    OutsideOnce(ns, M);
    assert multiset(Q2) == multiset(Q[1..]) + multiset(Outside(ns, M));
    forall x ensures multiset(Q2)[x] <= 1 {
      if x in Outside(ns, M) {
        assert x !in multiset(Q[1..]);
      } else {
        assert x !in multiset(Outside(ns, M));
      }
    }
    assert forall x :: x in Q2 <==> x in Q[1..] || (x in ns && x !in M);
  }

  /** Lines 208-219 (`side == Back`) or 223-234 (`side == Ahead`): take the
      front of this side's queue, list and mark it, and run the neighbour
      loop; `meet` is the cell where the sides met, if they did. */
  method Step(grid: array2<Node>, side: Side, queue: seq<Cell>, mine: set<Cell>, other: set<Cell>,
              visited: seq<Cell>, ghost root: Cell, ghost otherRoot: Cell, ghost P: set<Cell>,
              ghost rank: map<Cell, nat>, ghost otherP: set<Cell>, ghost otherQ: seq<Cell>,
              ghost otherRank: map<Cell, nat>)
    returns (currentNode: Cell, queue': seq<Cell>, mine': set<Cell>, visited': seq<Cell>, meet: Option<Cell>,
             ghost rank': map<Cell, nat>)
    modifies grid
    requires queue != [] && mine <= AllCells(grid)
    requires Half(View(grid), side, root, mine, P, queue, rank)
    requires Half(View(grid), Other(side), otherRoot, other, otherP, otherQ, otherRank)
    requires Apart(mine, other, root, otherRoot)
    requires Listed(View(grid), visited, P, otherP, root, otherRoot)
    ensures LinksOnly(old(View(grid)), View(grid))
    ensures currentNode == queue[0] && visited' == visited + [currentNode]
    ensures mine <= mine' <= AllCells(grid)
    ensures mine' == mine ==> |queue'| < |queue|
    ensures mine' == mine || |AllCells(grid) - mine'| < |AllCells(grid) - mine|
    ensures Taken(View(grid), side, currentNode, root, mine', P, queue', rank', otherRoot, other, otherP, otherQ,
                  otherRank, visited', meet)
  {
    ghost var G0 := View(grid);
    currentNode := queue[0];
    visited' := visited + [currentNode];
    MarkVisited(grid, currentNode);
    ghost var G1 := View(grid);
    var neighbors := GetNeighbors(grid, currentNode);
    NeighborsDistinct(grid, currentNode);
    mine', queue', meet := Reach(grid, side, currentNode, neighbors, mine, other, queue[1..]);
    ghost var G2 := View(grid);
    rank' := StepFacts(G0, G1, G2, side, queue, neighbors, mine, other, visited, root, otherRoot, P, rank,
                       otherP, otherQ, otherRank, mine', queue', meet);
    Shrinks(AllCells(grid), mine, mine');
  }

  /** The state of both sides once `side` has taken `c` off its queue and
      run its neighbour loop: the other side is as it was, the sides are
      still apart, `c` is listed, this side's tree holds the cells it
      reached, and either the loop ran to its end and this side is a `Half`
      again, or it stopped at an open neighbour `meet` of `c` the other side
      had reached. */
  ghost predicate Taken(G: map<Cell, Node>, side: Side, c: Cell, root: Cell, M: set<Cell>, P: set<Cell>,
                        Q: seq<Cell>, rank: map<Cell, nat>, otherRoot: Cell, other: set<Cell>, otherP: set<Cell>,
                        otherQ: seq<Cell>, otherRank: map<Cell, nat>, visited: seq<Cell>, meet: Option<Cell>) {
    && Half(G, Other(side), otherRoot, other, otherP, otherQ, otherRank)
    && Apart(M, other, root, otherRoot)
    && Listed(G, visited, P + {c}, otherP, root, otherRoot)
    && Tree(G, side, root, M, rank) && P + {c} <= M
    && (meet.None? ==> Half(G, side, root, M, P + {c}, Q, rank))
    && (meet.Some? ==> (meet.value in other && meet.value !in M && meet.value in G
      && Adjacent(c, meet.value) && !G[meet.value].isWall))
  }

  /** What `Step` does, on the grid's views before the step (`G0`), after
      marking the taken node (`G1`) and after the neighbour loop (`G2`). */
  lemma StepFacts(G0: map<Cell, Node>, G1: map<Cell, Node>, G2: map<Cell, Node>, side: Side, queue: seq<Cell>,
                  ns: seq<Cell>, mine: set<Cell>, other: set<Cell>, visited: seq<Cell>, root: Cell, otherRoot: Cell,
                  P: set<Cell>, rank: map<Cell, nat>, otherP: set<Cell>, otherQ: seq<Cell>,
                  otherRank: map<Cell, nat>, mine': set<Cell>, queue': seq<Cell>, meet: Option<Cell>)
    returns (rank': map<Cell, nat>)
    requires queue != []
    requires Half(G0, side, root, mine, P, queue, rank)
    requires Half(G0, Other(side), otherRoot, other, otherP, otherQ, otherRank)
    requires Apart(mine, other, root, otherRoot)
    requires Listed(G0, visited, P, otherP, root, otherRoot)
    requires G1 == G0[queue[0] := G0[queue[0]].(isVisited := true)]
    requires Distinct(ns) && forall n :: n in ns <==> n in G1 && Adjacent(queue[0], n) && !G1[n].isWall
    requires Cut(ns, mine, other) < |ns| ==> meet == Some(ns[Cut(ns, mine, other)])
    requires Cut(ns, mine, other) == |ns| ==> meet == None
    requires forall x :: x in mine' <==> x in mine || x in ns[..Cut(ns, mine, other)]
    requires queue' == queue[1..] + Outside(ns[..Cut(ns, mine, other)], mine)
    requires forall x :: x in G2 <==> x in G1
    requires forall x :: x in G1 ==> G2[x] == Joined(side, G1[x], x, queue[0], ns[..Cut(ns, mine, other)], mine)
    ensures LinksOnly(G0, G2)
    ensures mine <= mine' && forall x :: x in mine' ==> x in G2
    ensures mine' == mine ==> |queue'| < |queue|
    ensures Taken(G2, side, queue[0], root, mine', P, queue', rank', otherRoot, other, otherP, otherQ, otherRank,
                  visited + [queue[0]], meet)
  {
    var c, k := queue[0], Cut(ns, mine, other);
    assert c in mine && c !in P;
    assert root != otherRoot ==> c !in otherP;
    OtherKept(G0, G1, G2, side, c, ns[..k], mine, otherRoot, other, otherP, otherQ, otherRank, visited, P, root);
    HalfMarked(G0, G1, side, root, mine, P, queue, rank);
    rank' := MineGrows(G1, G2, side, root, mine, P, queue, rank, ns, other, mine', queue', meet);
    ApartGrows(mine, other, root, otherRoot, ns, k, mine');
  }

  /** Marking a node keeps a side's state. */
  lemma HalfMarked(G0: map<Cell, Node>, G1: map<Cell, Node>, side: Side, root: Cell, M: set<Cell>, P: set<Cell>,
                   Q: seq<Cell>, rank: map<Cell, nat>)
    requires Half(G0, side, root, M, P, Q, rank) && Q != []
    requires G1 == G0[Q[0] := G0[Q[0]].(isVisited := true)]
    ensures Half(G1, side, root, M, P, Q, rank)
  {
    MarkedLinks(G0, G1, side, Q[0]);
    HalfKeeps(G0, G1, side, root, M, P, Q, rank);
  }

  /** Marking a node changes no link and no wall. */
  lemma MarkedLinks(G0: map<Cell, Node>, G1: map<Cell, Node>, side: Side, c: Cell)
    requires c in G0 && G1 == G0[c := G0[c].(isVisited := true)]
    ensures forall x :: x in G1 <==> x in G0
    ensures forall x :: x in G0 ==> Link(side, G1[x]) == Link(side, G0[x]) && G1[x].isWall == G0[x].isWall
  {
  }

  /** The step leaves the other side's state alone, changes links and marks
      only, and lists the taken node `c`. */
  lemma OtherKept(G0: map<Cell, Node>, G1: map<Cell, Node>, G2: map<Cell, Node>, side: Side, c: Cell,
                  js: seq<Cell>, mine: set<Cell>, otherRoot: Cell, other: set<Cell>, otherP: set<Cell>,
                  otherQ: seq<Cell>, otherRank: map<Cell, nat>, visited: seq<Cell>, P: set<Cell>, root: Cell)
    requires c in G0 && G1 == G0[c := G0[c].(isVisited := true)]
    requires forall x :: x in G2 <==> x in G1
    requires forall x :: x in G1 ==> G2[x] == Joined(side, G1[x], x, c, js, mine)
    requires Half(G0, Other(side), otherRoot, other, otherP, otherQ, otherRank)
    requires Listed(G0, visited, P, otherP, root, otherRoot)
    requires c !in P && (root != otherRoot ==> c !in otherP)
    ensures LinksOnly(G0, G2)
    ensures Half(G2, Other(side), otherRoot, other, otherP, otherQ, otherRank)
    ensures Listed(G2, visited + [c], P + {c}, otherP, root, otherRoot)
  {
    StepLinks(G0, G1, G2, side, c, js, mine);
    HalfKeeps(G0, G2, Other(side), otherRoot, other, otherP, otherQ, otherRank);
    ListedGrows(G0, G2, visited, P, otherP, root, otherRoot, c);
  }

  /** This side after the neighbour loop: its tree holds the cells it
      reached, and when the loop ran to its end it is a `Half` again. */
  lemma MineGrows(G1: map<Cell, Node>, G2: map<Cell, Node>, side: Side, root: Cell, mine: set<Cell>, P: set<Cell>,
                  queue: seq<Cell>, rank: map<Cell, nat>, ns: seq<Cell>, other: set<Cell>, mine': set<Cell>,
                  queue': seq<Cell>, meet: Option<Cell>)
    returns (rank': map<Cell, nat>)
    requires Half(G1, side, root, mine, P, queue, rank) && queue != []
    requires Distinct(ns) && forall n :: n in ns <==> n in G1 && Adjacent(queue[0], n) && !G1[n].isWall
    requires Cut(ns, mine, other) < |ns| ==> meet == Some(ns[Cut(ns, mine, other)])
    requires Cut(ns, mine, other) == |ns| ==> meet == None
    requires forall x :: x in mine' <==> x in mine || x in ns[..Cut(ns, mine, other)]
    requires queue' == queue[1..] + Outside(ns[..Cut(ns, mine, other)], mine)
    requires forall x :: x in G2 <==> x in G1
    requires forall x :: x in G1 ==> G2[x] == Joined(side, G1[x], x, queue[0], ns[..Cut(ns, mine, other)], mine)
    ensures mine <= mine' && forall x :: x in mine' ==> x in G2
    ensures mine' == mine ==> |queue'| < |queue|
    ensures Tree(G2, side, root, mine', rank') && P + {queue[0]} <= mine'
    ensures meet.None? ==> Half(G2, side, root, mine', P + {queue[0]}, queue', rank')
    ensures meet.Some? ==> (meet.value in other && meet.value !in mine' && meet.value in G2
      && Adjacent(queue[0], meet.value) && !G2[meet.value].isWall)
  {
    var k := Cut(ns, mine, other);
    rank' := MineTree(G1, G2, side, root, mine, P, queue, rank, ns, k, mine');
    if meet.None? {
      assert ns[..k] == ns;
      HalfGrows(G1, G2, side, root, mine, P, queue, rank, ns, mine', rank');
    }
    if mine' == mine {
      OutsideNone(ns[..k], mine);
    }
  }

  /** This side's tree after the neighbour loop stopped at `k`. */
  lemma MineTree(G1: map<Cell, Node>, G2: map<Cell, Node>, side: Side, root: Cell, mine: set<Cell>, P: set<Cell>,
                 queue: seq<Cell>, rank: map<Cell, nat>, ns: seq<Cell>, k: nat, mine': set<Cell>)
    returns (rank': map<Cell, nat>)
    requires Half(G1, side, root, mine, P, queue, rank) && queue != [] && k <= |ns|
    requires forall n :: n in ns ==> n in G1 && Adjacent(queue[0], n) && !G1[n].isWall
    requires forall x :: x in mine' <==> x in mine || x in ns[..k]
    requires forall x :: x in G2 <==> x in G1
    requires forall x :: x in G1 ==> G2[x] == Joined(side, G1[x], x, queue[0], ns[..k], mine)
    ensures mine <= mine' && forall x :: x in mine' ==> x in G2
    ensures Tree(G2, side, root, mine', rank') && P + {queue[0]} <= mine'
  {
    var c := queue[0];
    rank' := map x | x in mine' :: if x in mine then rank[x] else rank[c] + 1;
    forall x | x in P + {c} ensures x in mine' {
      assert x in mine;
    }
    TreeGrows(G1, G2, side, root, mine, rank, c, ns, k, mine');
  }

  lemma {:induction false} OutsideNone(ns: seq<Cell>, S: set<Cell>)
    requires forall n :: n in ns ==> n in S
    ensures Outside(ns, S) == []
  {
    if ns != [] {
      OutsideNone(ns[..|ns| - 1], S);
    }
  }

  /** Marking the taken node and then running the neighbour loop changes
      only marks and this side's links, and clears no mark. */
  lemma StepLinks(G0: map<Cell, Node>, G1: map<Cell, Node>, G2: map<Cell, Node>, side: Side, c: Cell,
                  ns: seq<Cell>, mine: set<Cell>)
    requires c in G0 && G1 == G0[c := G0[c].(isVisited := true)]
    requires forall x :: x in G2 <==> x in G1
    requires forall x :: x in G1 ==> G2[x] == Joined(side, G1[x], x, c, ns, mine)
    ensures LinksOnly(G0, G2) && G2[c].isVisited
    ensures forall x :: x in G2 <==> x in G0
    ensures forall x :: x in G0 ==>
      Link(Other(side), G2[x]) == Link(Other(side), G0[x]) && G2[x].isWall == G0[x].isWall
  {
    assert Bare(G1[c]) == Bare(G0[c]);
    forall x | x in G0
      ensures Bare(G2[x]) == Bare(G0[x]) && (G0[x].isVisited ==> G2[x].isVisited)
      ensures Link(Other(side), G2[x]) == Link(Other(side), G0[x]) && G2[x].isWall == G0[x].isWall
    {
      assert G2[x] == Joined(side, G1[x], x, c, ns, mine);
    }
  }

  /** The cells a side adds were not reached by the other side. */
  lemma ApartGrows(mine: set<Cell>, other: set<Cell>, root: Cell, otherRoot: Cell, ns: seq<Cell>, k: nat,
                   mine': set<Cell>)
    requires Apart(mine, other, root, otherRoot) && k == Cut(ns, mine, other)
    requires forall x :: x in mine' <==> x in mine || x in ns[..k]
    ensures Apart(mine', other, root, otherRoot)
  {
    forall x | x in mine' && x in other ensures x == root && x == otherRoot {
      assert x in mine;
    }
  }

  /** Listing the node `c` just taken off this side's queue. */
  lemma ListedGrows(G0: map<Cell, Node>, G2: map<Cell, Node>, visited: seq<Cell>, P: set<Cell>, otherP: set<Cell>,
                    root: Cell, otherRoot: Cell, c: Cell)
    requires Listed(G0, visited, P, otherP, root, otherRoot)
    requires c !in P && (root != otherRoot ==> c !in otherP)
    requires LinksOnly(G0, G2) && c in G2 && G2[c].isVisited
    ensures Listed(G2, visited + [c], P + {c}, otherP, root, otherRoot)
  {
    var visited' := visited + [c];
    if root != otherRoot {
      forall i, j | 0 <= i < j < |visited'| ensures visited'[i] != visited'[j] {
        if j == |visited| {
          assert visited'[i] in visited;
        }
      }
    }
    assert forall x :: x in visited' <==> x in visited || x == c;
  }

  /** Lines 239-252, the second loop: follow `nextNode` on from `b` to a
      node without one, appending each node. */
  method FollowNext(grid: array2<Node>, b: Cell, ghost finish: Cell, ghost S: set<Cell>, ghost rank: map<Cell, nat>)
    returns (tail: seq<Cell>)
    requires Tree(View(grid), Ahead, finish, S, rank) && b in S
    ensures IsPath(grid, tail, b, finish) && Distinct(tail)
    ensures forall c :: c in tail ==> c in S
    ensures forall i :: 0 <= i < |tail| - 1 ==> At(grid, tail[i]).nextNode == Some(tail[i + 1])
  {
    ghost var G := View(grid);
    tail := [];
    var curr: Option<Cell> := Some(b);
    while curr.Some?
      invariant curr.Some? ==> curr.value in S
      invariant forall c :: c in tail ==> c in S
      invariant tail == [] ==> curr == Some(b)
      invariant tail != [] ==> tail[0] == b && curr == At(grid, tail[|tail| - 1]).nextNode
      invariant forall i :: 0 <= i < |tail| - 1 ==> At(grid, tail[i]).nextNode == Some(tail[i + 1])
      invariant forall i, j :: 0 <= i < j < |tail| ==> rank[tail[i]] > rank[tail[j]]
      invariant curr.Some? && tail != [] ==> rank[curr.value] < rank[tail[|tail| - 1]]
      decreases if curr.Some? then rank[curr.value] + 1 else 0
    {
      var node := curr.value;
      tail := tail + [node];
      curr := At(grid, node).nextNode;
      assert node == finish || Linked(G, Ahead, S, rank, node);
    }
    ghost var last := tail[|tail| - 1];
    assert last == finish || Linked(G, Ahead, S, rank, last);
    forall i | 0 <= i < |tail| - 1 ensures Adjacent(tail[i], tail[i + 1]) && !At(grid, tail[i]).isWall {
      assert tail[i] == finish || Linked(G, Ahead, S, rank, tail[i]);
    }
  }

  /** Two walks joined by one step make a walk. */
  lemma JoinPaths(grid: array2<Node>, p: seq<Cell>, q: seq<Cell>, from: Cell, a: Cell, b: Cell, to: Cell)
    requires IsPath(grid, p, from, a) && IsPath(grid, q, b, to) && Adjacent(a, b)
    requires |p| > 1 ==> !At(grid, a).isWall
    requires |q| > 1 ==> !At(grid, b).isWall
    ensures IsPath(grid, p + q, from, to)
  {
    var r := p + q;
    forall i | 0 < i < |r| - 1 ensures !At(grid, r[i]).isWall {
      if i < |p| - 1 {
        assert r[i] == p[i];
      } else if i == |p| - 1 {
        assert r[i] == a;
      } else if i == |p| {
        assert r[i] == b;
      } else {
        assert r[i] == q[i - |p|];
      }
    }
    forall i | 0 <= i < |r| - 1 ensures Adjacent(r[i], r[i + 1]) {
      if i < |p| - 1 {
        assert r[i] == p[i] && r[i + 1] == p[i + 1];
      } else if i >= |p| {
        assert r[i] == q[i - |p|] && r[i + 1] == q[i + 1 - |p|];
      }
    }
  }

  /** Joining two repetition-free walks through disjoint sets repeats no
      cell. */
  lemma DistinctJoin(p: seq<Cell>, q: seq<Cell>, A: set<Cell>, B: set<Cell>)
    requires Distinct(p) && Distinct(q)
    requires (forall c :: c in p ==> c in A) && (forall c :: c in q ==> c in B)
    requires forall c :: c in A ==> c !in B
    ensures Distinct(p + q)
  {
    var r := p + q;
    forall i, j | 0 <= i < j < |r| ensures r[i] != r[j] {
      if i < |p| && j >= |p| {
        assert r[i] == p[i] && p[i] in p && r[j] == q[j - |p|] && q[j - |p|] in q;
      } else if i < |p| {
        assert r[i] == p[i] && r[j] == p[j];
      } else {
        assert r[i] == q[i - |p|] && r[j] == q[j - |p|];
      }
    }
  }

  /** The walk `p` crosses from `a` to `b` between its places `m - 1` and
      `m`: each node before the crossing is the `previousNode` of the next
      one, and each node after it has the next one as its `nextNode`. */
  ghost predicate MeetsAt(grid: array2<Node>, p: seq<Cell>, m: int, a: Cell, b: Cell)
    reads grid
    requires forall i :: 0 <= i < |p| ==> InBounds(grid, p[i])
  {
    && 0 < m < |p| && p[m - 1] == a && p[m] == b
    && (forall i :: 0 <= i < m - 1 ==> At(grid, p[i + 1]).previousNode == Some(p[i]))
    && (forall i :: m <= i < |p| - 1 ==> At(grid, p[i]).nextNode == Some(p[i + 1]))
  }

  /** `mergeBidirectionalPath(meetNodeStartSide, meetNodeEndSide,
      visitedNodes)` (lines 239-252): the `previousNode` chain back from the
      start-side meeting node, read from its first node, then the `nextNode`
      chain on from the end-side meeting node. */
  method MergeBidirectionalPath(grid: array2<Node>, meetNodeStartSide: Cell, meetNodeEndSide: Cell,
                                visitedNodes: seq<Cell>, ghost start: Cell, ghost finish: Cell,
                                ghost SV: set<Cell>, ghost rankS: map<Cell, nat>, ghost EV: set<Cell>,
                                ghost rankE: map<Cell, nat>)
    returns (result: SearchResult)
    requires Tree(View(grid), Back, start, SV, rankS) && meetNodeStartSide in SV
    requires Tree(View(grid), Ahead, finish, EV, rankE) && meetNodeEndSide in EV
    requires Adjacent(meetNodeStartSide, meetNodeEndSide)
    requires Apart(SV, EV, start, finish)
    ensures result.visitedNodesInOrder == visitedNodes
    ensures IsPath(grid, result.path, start, finish)
    ensures forall c :: c in result.path ==> c in SV || c in EV
    ensures start != finish ==> Distinct(result.path)
    ensures exists m :: MeetsAt(grid, result.path, m, meetNodeStartSide, meetNodeEndSide)
  {
    ghost var G := View(grid);
    var head := TracePath(grid, start, meetNodeStartSide, SV, rankS);
    var tail := FollowNext(grid, meetNodeEndSide, finish, EV, rankE);
    if |head| > 1 {
      assert meetNodeStartSide != start by {
        assert head[0] == start && head[|head| - 1] == meetNodeStartSide;
      }
      assert Linked(G, Back, SV, rankS, meetNodeStartSide);
    }
    if |tail| > 1 {
      assert meetNodeEndSide != finish by {
        assert tail[0] == meetNodeEndSide && tail[|tail| - 1] == finish;
      }
      assert Linked(G, Ahead, EV, rankE, meetNodeEndSide);
    }
    JoinPaths(grid, head, tail, start, meetNodeStartSide, meetNodeEndSide, finish);
    var path := head + tail;
    if start != finish {
      DistinctJoin(head, tail, SV, EV);
    }
    var m := |head|;
    assert MeetsAt(grid, path, m, meetNodeStartSide, meetNodeEndSide) by {
      forall i | 0 <= i < m - 1 ensures At(grid, path[i + 1]).previousNode == Some(path[i]) {
        assert path[i] == head[i] && path[i + 1] == head[i + 1];
      }
      forall i | m <= i < |path| - 1 ensures At(grid, path[i]).nextNode == Some(path[i + 1]) {
        assert path[i] == tail[i - m] && path[i + 1] == tail[i + 1 - m];
      }
    }
    result := SearchResult(visitedNodes, path);
  }

  /** What the final visit list shows, read off the two sides: every listed
      cell is marked, and open unless it is the start or the finish. */
  lemma ListedFacts(grid: array2<Node>, visited: seq<Cell>, start: Cell, finish: Cell, SV: set<Cell>, PS: set<Cell>,
                    rankS: map<Cell, nat>, EV: set<Cell>, PE: set<Cell>, rankE: map<Cell, nat>)
    requires Tree(View(grid), Back, start, SV, rankS) && Tree(View(grid), Ahead, finish, EV, rankE)
    requires PS <= SV && PE <= EV
    requires Listed(View(grid), visited, PS, PE, start, finish)
    ensures forall c :: c in visited ==>
      InBounds(grid, c) && At(grid, c).isVisited && (c == start || c == finish || !At(grid, c).isWall)
    ensures start != finish ==> Distinct(visited)
  {
    var G := View(grid);
    forall c | c in visited
      ensures InBounds(grid, c) && At(grid, c).isVisited && (c == start || c == finish || !At(grid, c).isWall)
    {
      if c in PS && c != start {
        assert Linked(G, Back, SV, rankS, c);
      } else if c in PE && c != finish {
        assert Linked(G, Ahead, EV, rankE, c);
      }
    }
  }

  /** When a queue runs empty its side is closed under open neighbours, so
      an open finish is unreachable from the start. */
  lemma ExhaustedSides(grid: array2<Node>, start: Cell, finish: Cell, SV: set<Cell>, PS: set<Cell>,
                       SQ: seq<Cell>, rankS: map<Cell, nat>, EV: set<Cell>, PE: set<Cell>, EQ: seq<Cell>,
                       rankE: map<Cell, nat>)
    requires Half(View(grid), Back, start, SV, PS, SQ, rankS) && Half(View(grid), Ahead, finish, EV, PE, EQ, rankE)
    requires Apart(SV, EV, start, finish) && start != finish
    requires SQ == [] || EQ == []
    requires !At(grid, start).isWall && !At(grid, finish).isWall
    ensures !Reachable(grid, start, finish)
  {
    var G := View(grid);
    if SQ == [] {
      assert Closed(grid, SV) by {
        forall v, n | v in SV && InBounds(grid, n) && Adjacent(v, n) && !At(grid, n).isWall ensures n in SV {
          assert v in PS && n in G;
        }
      }
      ClosedSetSeparates(grid, SV, start, finish);
    } else {
      assert Closed(grid, EV) by {
        forall v, n | v in EV && InBounds(grid, n) && Adjacent(v, n) && !At(grid, n).isWall ensures n in EV {
          assert v in PE && n in G;
        }
      }
      ClosedSetSeparates(grid, EV, finish, start);
      if Reachable(grid, start, finish) {
        ReachableSymmetric(grid, start, finish);
      }
    }
  }

  /** Once a queue is empty, the empty path answers the search. */
  lemma ExhaustedAnswer(grid: array2<Node>, start: Cell, finish: Cell, SV: set<Cell>, PS: set<Cell>, SQ: seq<Cell>,
                        rankS: map<Cell, nat>, EV: set<Cell>, PE: set<Cell>, EQ: seq<Cell>, rankE: map<Cell, nat>,
                        visited: seq<Cell>)
    requires Search(View(grid), start, finish, SV, PS, SQ, rankS, EV, PE, EQ, rankE, visited)
    requires SQ == [] || EQ == []
    ensures Answered(grid, start, finish, SearchResult(visited, []))
  {
    ListedFacts(grid, visited, start, finish, SV, PS, rankS, EV, PE, rankE);
    if start != finish && !At(grid, start).isWall && !At(grid, finish).isWall {
      ExhaustedSides(grid, start, finish, SV, PS, SQ, rankS, EV, PE, EQ, rankE);
    }
  }

  /** Lines 203-204 and the queues and sets of lines 196-202: the two
      roots have no link and each side holds its root alone. */
  method SetRoots(grid: array2<Node>, startNode: Cell, finishNode: Cell)
    modifies grid
    requires InBounds(grid, startNode) && InBounds(grid, finishNode)
    ensures LinksOnly(old(View(grid)), View(grid))
    ensures Search(View(grid), startNode, finishNode, {startNode}, {}, [startNode], map[startNode := 0],
                   {finishNode}, {}, [finishNode], map[finishNode := 0], [])
  {
    ghost var G0 := View(grid);
    SetLink(grid, Back, startNode, None);
    ghost var G1 := View(grid);
    LinksOnlyUpdate(G0, startNode, G1[startNode]);
    SetLink(grid, Ahead, finishNode, None);
    ghost var G2 := View(grid);
    LinksOnlyUpdate(G1, finishNode, G2[finishNode]);
    LinksOnlyTrans(G0, G1, G2);
    assert Link(Back, G2[startNode]) == None by {
      if startNode != finishNode {
        assert G2[startNode] == G1[startNode];
      }
    }
    InitialSearch(G2, startNode, finishNode);
  }

  /** Each side holding its root alone, nothing listed yet. */
  lemma InitialSearch(G: map<Cell, Node>, start: Cell, finish: Cell)
    requires start in G && Link(Back, G[start]) == None
    requires finish in G && Link(Ahead, G[finish]) == None
    ensures Search(G, start, finish, {start}, {}, [start], map[start := 0], {finish}, {}, [finish], map[finish := 0], [])
  {
    RootHalf(G, Back, start);
    RootHalf(G, Ahead, finish);
  }

  /** A side that holds its root alone, the root without a link. */
  lemma RootHalf(G: map<Cell, Node>, side: Side, root: Cell)
    requires root in G && Link(side, G[root]) == None
    ensures Half(G, side, root, {root}, {}, [root], map[root := 0])
  {
  }

  /** Both sides between passes of the main loop: each is a `Half`, they
      are apart, the visit list holds the cells they took off their queues,
      and it starts with the start once anything is listed. */
  ghost predicate Search(G: map<Cell, Node>, start: Cell, finish: Cell, SV: set<Cell>, PS: set<Cell>, SQ: seq<Cell>,
                         rankS: map<Cell, nat>, EV: set<Cell>, PE: set<Cell>, EQ: seq<Cell>, rankE: map<Cell, nat>,
                         visited: seq<Cell>) {
    && Half(G, Back, start, SV, PS, SQ, rankS)
    && Half(G, Ahead, finish, EV, PE, EQ, rankE)
    && Apart(SV, EV, start, finish)
    && Listed(G, visited, PS, PE, start, finish)
    && (visited == [] ==> SQ == [start] && EQ == [finish])
    && (visited != [] ==> visited[0] == start)
  }

  /** What `bidirectionalBFS` promises of the result it returns: the visit
      list starts with the start and its cells are marked and open, apart
      from the start and the finish; a non-empty path is a walk from the
      start to the finish; unless the start is the finish, no cell is listed
      twice or walked twice, and an empty path means the open finish is
      unreachable from the open start. */
  ghost predicate Answered(grid: array2<Node>, start: Cell, finish: Cell, r: SearchResult)
    reads grid
  {
    && |r.visitedNodesInOrder| > 0 && r.visitedNodesInOrder[0] == start
    && (forall c :: c in r.visitedNodesInOrder ==>
      InBounds(grid, c) && At(grid, c).isVisited && (c == start || c == finish || !At(grid, c).isWall))
    && (r.path != [] ==> IsPath(grid, r.path, start, finish))
    && (start != finish ==> Distinct(r.visitedNodesInOrder) && Distinct(r.path))
    && (start != finish ==> CompleteResult(grid, start, finish, r))
  }

  /** Lines 207-221: the start side's turn. `done` when it met the end side,
      with the merged path as `result`. */
  method StartRound(grid: array2<Node>, startNode: Cell, finishNode: Cell, startQueue: seq<Cell>,
                    startVisited: set<Cell>, endVisited: set<Cell>, visited: seq<Cell>, ghost PS: set<Cell>,
                    ghost rankS: map<Cell, nat>, ghost PE: set<Cell>, ghost endQueue: seq<Cell>,
                    ghost rankE: map<Cell, nat>)
    returns (done: bool, result: SearchResult, startQueue': seq<Cell>, startVisited': set<Cell>, visited': seq<Cell>,
             ghost PS': set<Cell>, ghost rankS': map<Cell, nat>)
    modifies grid
    requires startQueue != [] && startVisited <= AllCells(grid)
    requires Search(View(grid), startNode, finishNode, startVisited, PS, startQueue, rankS, endVisited, PE, endQueue,
                    rankE, visited)
    ensures LinksOnly(old(View(grid)), View(grid))
    ensures startVisited <= startVisited' <= AllCells(grid)
    ensures startVisited' == startVisited ==> |startQueue'| < |startQueue|
    ensures startVisited' == startVisited || |AllCells(grid) - startVisited'| < |AllCells(grid) - startVisited|
    ensures done ==> Answered(grid, startNode, finishNode, result)
    ensures !done ==> visited' != [] && Search(View(grid), startNode, finishNode, startVisited', PS', startQueue',
                                              rankS', endVisited, PE, endQueue, rankE, visited')
  {
    var currStart, meet;
    currStart, startQueue', startVisited', visited', meet, rankS' :=
      Step(grid, Back, startQueue, startVisited, endVisited, visited, startNode, finishNode, PS, rankS, PE, endQueue,
           rankE);
    PS' := PS + {currStart};
    if meet.Some? {
      BackMet(View(grid), startNode, finishNode, currStart, meet.value, startVisited', PS, startQueue', rankS',
              endVisited, PE, endQueue, rankE, visited);
      result := Meet(grid, currStart, meet.value, visited', startNode, finishNode, startVisited', PS', rankS',
                     endVisited, PE, rankE);
      return true, result, startQueue', startVisited', visited', PS', rankS';
    }
    BackTaken(View(grid), startNode, finishNode, currStart, startVisited', PS, startQueue', rankS', endVisited, PE,
              endQueue, rankE, visited);
    done, result := false, SearchResult(visited', []);
  }

  /** Lines 222-235: the end side's turn. `done` when it met the start side,
      with the merged path as `result`. */
  method EndRound(grid: array2<Node>, startNode: Cell, finishNode: Cell, endQueue: seq<Cell>,
                  endVisited: set<Cell>, startVisited: set<Cell>, visited: seq<Cell>, ghost PE: set<Cell>,
                  ghost rankE: map<Cell, nat>, ghost PS: set<Cell>, ghost startQueue: seq<Cell>,
                  ghost rankS: map<Cell, nat>)
    returns (done: bool, result: SearchResult, endQueue': seq<Cell>, endVisited': set<Cell>, visited': seq<Cell>,
             ghost PE': set<Cell>, ghost rankE': map<Cell, nat>)
    modifies grid
    requires endQueue != [] && endVisited <= AllCells(grid) && visited != []
    requires Search(View(grid), startNode, finishNode, startVisited, PS, startQueue, rankS, endVisited, PE, endQueue,
                    rankE, visited)
    ensures LinksOnly(old(View(grid)), View(grid))
    ensures endVisited <= endVisited' <= AllCells(grid)
    ensures endVisited' == endVisited ==> |endQueue'| < |endQueue|
    ensures endVisited' == endVisited || |AllCells(grid) - endVisited'| < |AllCells(grid) - endVisited|
    ensures done ==> Answered(grid, startNode, finishNode, result)
    ensures !done ==> visited' != [] && Search(View(grid), startNode, finishNode, startVisited, PS, startQueue, rankS,
                                              endVisited', PE', endQueue', rankE', visited')
  {
    ApartSwap(startVisited, endVisited, startNode, finishNode);
    var currEnd, meet;
    currEnd, endQueue', endVisited', visited', meet, rankE' :=
      Step(grid, Ahead, endQueue, endVisited, startVisited, visited, finishNode, startNode, PE, rankE, PS, startQueue,
           rankS);
    PE' := PE + {currEnd};
    if meet.Some? {
      AheadMet(View(grid), startNode, finishNode, currEnd, meet.value, startVisited, PS, startQueue, rankS,
               endVisited', PE, endQueue', rankE', visited);
      result := Meet(grid, meet.value, currEnd, visited', startNode, finishNode, startVisited, PS, rankS,
                     endVisited', PE', rankE');
      return true, result, endQueue', endVisited', visited', PE', rankE';
    }
    AheadTaken(View(grid), startNode, finishNode, currEnd, startVisited, PS, startQueue, rankS, endVisited', PE,
               endQueue', rankE', visited);
    done, result := false, SearchResult(visited', []);
  }

  /** The state in which the sides meet across the adjacent cells `a`,
      reached by the start side, and `b`, reached by the end side. */
  ghost predicate Met(G: map<Cell, Node>, a: Cell, b: Cell, visited: seq<Cell>, start: Cell, finish: Cell,
                      SV: set<Cell>, PS: set<Cell>, rankS: map<Cell, nat>, EV: set<Cell>, PE: set<Cell>,
                      rankE: map<Cell, nat>) {
    && Tree(G, Back, start, SV, rankS) && a in SV && PS <= SV
    && Tree(G, Ahead, finish, EV, rankE) && b in EV && PE <= EV
    && Adjacent(a, b) && Apart(SV, EV, start, finish)
    && Listed(G, visited, PS, PE, start, finish)
    && visited != [] && visited[0] == start
  }

  /** The start side's turn, stopped at a cell `m` the end side reached. */
  lemma BackMet(G: map<Cell, Node>, start: Cell, finish: Cell, c: Cell, m: Cell, SV: set<Cell>, PS: set<Cell>,
                SQ: seq<Cell>, rankS: map<Cell, nat>, EV: set<Cell>, PE: set<Cell>, EQ: seq<Cell>,
                rankE: map<Cell, nat>, visited: seq<Cell>)
    requires Taken(G, Back, c, start, SV, PS, SQ, rankS, finish, EV, PE, EQ, rankE, visited + [c], Some(m))
    requires visited == [] ==> c == start
    requires visited != [] ==> visited[0] == start
    ensures Met(G, c, m, visited + [c], start, finish, SV, PS + {c}, rankS, EV, PE, rankE)
  {
  }

  /** The end side's turn, stopped at a cell `m` the start side reached. */
  lemma AheadMet(G: map<Cell, Node>, start: Cell, finish: Cell, c: Cell, m: Cell, SV: set<Cell>, PS: set<Cell>,
                 SQ: seq<Cell>, rankS: map<Cell, nat>, EV: set<Cell>, PE: set<Cell>, EQ: seq<Cell>,
                 rankE: map<Cell, nat>, visited: seq<Cell>)
    requires Taken(G, Ahead, c, finish, EV, PE, EQ, rankE, start, SV, PS, SQ, rankS, visited + [c], Some(m))
    requires visited != [] && visited[0] == start
    ensures Met(G, m, c, visited + [c], start, finish, SV, PS, rankS, EV, PE + {c}, rankE)
  {
    ApartSwap(EV, SV, finish, start);
  }

  /** The sides met across the adjacent cells `a` (start side) and `b` (end
      side): `mergeBidirectionalPath(a, b, visited)` answers the search. */
  method Meet(grid: array2<Node>, a: Cell, b: Cell, visited: seq<Cell>, ghost start: Cell, ghost finish: Cell,
              ghost SV: set<Cell>, ghost PS: set<Cell>, ghost rankS: map<Cell, nat>, ghost EV: set<Cell>,
              ghost PE: set<Cell>, ghost rankE: map<Cell, nat>)
    returns (result: SearchResult)
    requires Met(View(grid), a, b, visited, start, finish, SV, PS, rankS, EV, PE, rankE)
    ensures Answered(grid, start, finish, result)
  {
    result := MergeBidirectionalPath(grid, a, b, visited, start, finish, SV, rankS, EV, rankE);
    ListedFacts(grid, visited, start, finish, SV, PS, rankS, EV, PE, rankE);
  }

  lemma ApartSwap(M1: set<Cell>, M2: set<Cell>, r1: Cell, r2: Cell)
    requires Apart(M1, M2, r1, r2)
    ensures Apart(M2, M1, r2, r1)
  {
  }

  /** The start side's turn, run to the end of its neighbour loop, leaves a
      `Search` state. */
  lemma BackTaken(G: map<Cell, Node>, start: Cell, finish: Cell, c: Cell, SV: set<Cell>, PS: set<Cell>,
                  SQ: seq<Cell>, rankS: map<Cell, nat>, EV: set<Cell>, PE: set<Cell>, EQ: seq<Cell>,
                  rankE: map<Cell, nat>, visited: seq<Cell>)
    requires Taken(G, Back, c, start, SV, PS, SQ, rankS, finish, EV, PE, EQ, rankE, visited + [c], None)
    requires visited == [] ==> c == start
    requires visited != [] ==> visited[0] == start
    ensures Search(G, start, finish, SV, PS + {c}, SQ, rankS, EV, PE, EQ, rankE, visited + [c])
  {
  }

  /** The end side's turn, run to the end of its neighbour loop, leaves a
      `Search` state. */
  lemma AheadTaken(G: map<Cell, Node>, start: Cell, finish: Cell, c: Cell, SV: set<Cell>, PS: set<Cell>,
                   SQ: seq<Cell>, rankS: map<Cell, nat>, EV: set<Cell>, PE: set<Cell>, EQ: seq<Cell>,
                   rankE: map<Cell, nat>, visited: seq<Cell>)
    requires Taken(G, Ahead, c, finish, EV, PE, EQ, rankE, start, SV, PS, SQ, rankS, visited + [c], None)
    requires visited != [] && visited[0] == start
    ensures Search(G, start, finish, SV, PS, SQ, rankS, EV, PE + {c}, EQ, rankE, visited + [c])
  {
    ApartSwap(EV, SV, finish, start);
  }

  /** `bidirectionalBFS`: the returned path, when there is one, is a walk
      from the start to the finish through cells the two sides reached,
      made of the start side's `previousNode` chain and then the end side's
      `nextNode` chain; an empty path means the open finish is unreachable
      from the open start. */
  method BidirectionalBfs(grid: array2<Node>, startNode: Cell, finishNode: Cell) returns (result: SearchResult)
    modifies grid
    requires InBounds(grid, startNode) && InBounds(grid, finishNode) && Shaped(grid)
    ensures LinksOnly(old(View(grid)), View(grid))
    ensures Answered(grid, startNode, finishNode, result)
  {
    ghost var G0 := View(grid);
    var visitedNodesInOrder: seq<Cell> := [];
    var startQueue := [startNode];
    var endQueue := [finishNode];
    var startVisited := {startNode};
    var endVisited := {finishNode};
    SetRoots(grid, startNode, finishNode);
    ghost var PS: set<Cell>, PE: set<Cell> := {}, {};
    ghost var rankS, rankE := map[startNode := 0], map[finishNode := 0];
    while |startQueue| > 0 && |endQueue| > 0
      invariant LinksOnly(G0, View(grid))
      invariant Search(View(grid), startNode, finishNode, startVisited, PS, startQueue, rankS, endVisited, PE, endQueue,
                       rankE, visitedNodesInOrder)
      invariant startVisited <= AllCells(grid) && endVisited <= AllCells(grid)
      decreases |AllCells(grid) - startVisited|, |AllCells(grid) - endVisited|, |startQueue| + |endQueue|
    {
      var done;
      if |startQueue| > 0 {
        ghost var G := View(grid);
        done, result, startQueue, startVisited, visitedNodesInOrder, PS, rankS :=
          StartRound(grid, startNode, finishNode, startQueue, startVisited, endVisited, visitedNodesInOrder, PS, rankS,
                     PE, endQueue, rankE);
        LinksOnlyTrans(G0, G, View(grid));
        if done {
          return;
        }
      }
      if |endQueue| > 0 {
        ghost var G := View(grid);
        done, result, endQueue, endVisited, visitedNodesInOrder, PE, rankE :=
          EndRound(grid, startNode, finishNode, endQueue, endVisited, startVisited, visitedNodesInOrder, PE, rankE,
                   PS, startQueue, rankS);
        LinksOnlyTrans(G0, G, View(grid));
        if done {
          return;
        }
      }
    }
    ExhaustedAnswer(grid, startNode, finishNode, startVisited, PS, startQueue, rankS, endVisited, PE, endQueue, rankE,
                    visitedNodesInOrder);
    return SearchResult(visitedNodesInOrder, []);
  }
}
