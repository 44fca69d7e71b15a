/** The comparator sorts the searches apply to their lists (algorithms.js,
    lines 60, 91 and 125): `(a, b) => a.key - b.key` under JavaScript's stable
    `Array.prototype.sort`. Subtracting two `Infinity` keys gives `NaN`, which
    the sort treats as "equal", so the order is `DistLe` on keys. */
module Sorting {
  import opened Nodes

  /** Which field a search sorts by: `distance` (Dijkstra, Greedy) or `f` (A*). */
  datatype SortKey = ByDistance | ByF

  function Key(grid: array2<Node>, k: SortKey, c: Cell): Dist
    reads grid
    requires InBounds(grid, c)
  {
    match k
    case ByDistance => At(grid, c).distance
    case ByF => Fin(At(grid, c).f)
  }

  ghost predicate SortedBy(grid: array2<Node>, k: SortKey, s: seq<Cell>)
    reads grid
    requires AllInBounds(grid, s)
  {
    forall i, j :: 0 <= i < j < |s| ==> DistLe(Key(grid, k, s[i]), Key(grid, k, s[j]))
  }

  /** Places `x` before the first element whose key is not smaller, so an
      element keeps its place ahead of later elements with an equal key. */
  function Insert(grid: array2<Node>, k: SortKey, x: Cell, s: seq<Cell>): (r: seq<Cell>)
    reads grid
    requires InBounds(grid, x) && AllInBounds(grid, s)
    ensures AllInBounds(grid, r) && |r| == |s| + 1
    ensures multiset(r) == multiset(s) + multiset{x}
  {
    if s == [] || DistLe(Key(grid, k, x), Key(grid, k, s[0])) then [x] + s
    else
      assert s == [s[0]] + s[1..];
      [s[0]] + Insert(grid, k, x, s[1..])
  }

  /** Inserting into a sorted list keeps it sorted. */
  lemma {:induction false} InsertSorted(grid: array2<Node>, k: SortKey, x: Cell, s: seq<Cell>)
    requires InBounds(grid, x) && AllInBounds(grid, s) && SortedBy(grid, k, s)
    ensures SortedBy(grid, k, Insert(grid, k, x, s))
  {
    if s != [] && !DistLe(Key(grid, k, x), Key(grid, k, s[0])) {
      var rest := Insert(grid, k, x, s[1..]);
      InsertSorted(grid, k, x, s[1..]);
      var r := [s[0]] + rest;
      assert r == Insert(grid, k, x, s);
      forall i, j | 0 <= i < j < |r| ensures DistLe(Key(grid, k, r[i]), Key(grid, k, r[j])) {
        assert r[j] == rest[j - 1] && r[j] in multiset(rest);
        if i > 0 {
          assert r[i] == rest[i - 1];
        } else if r[j] != x {
          var m :| 0 <= m < |s[1..]| && s[1..][m] == r[j];
          assert s[m + 1] == r[j];
        }
      }
    }
  }

  /** `list.sort((a, b) => a.key - b.key)`: a stable sort by key. */
  function SortBy(grid: array2<Node>, k: SortKey, s: seq<Cell>): (r: seq<Cell>)
    reads grid
    requires AllInBounds(grid, s)
    ensures AllInBounds(grid, r) && |r| == |s|
    ensures multiset(r) == multiset(s)
    ensures SortedBy(grid, k, r)
  {
    if s == [] then []
    else
      assert s == [s[0]] + s[1..];
      var sorted := SortBy(grid, k, s[1..]);
      InsertSorted(grid, k, s[0], sorted);
      Insert(grid, k, s[0], sorted)
  }

  /** `list.sort(...)` followed by `list.shift()`: the first element after
      sorting has the least key on the list, and the rest is the list without
      it. */
  method TakeFirst(grid: array2<Node>, k: SortKey, s: seq<Cell>) returns (first: Cell, rest: seq<Cell>)
    requires s != [] && AllInBounds(grid, s)
    ensures multiset(s) == multiset(rest) + multiset{first}
    ensures InBounds(grid, first) && AllInBounds(grid, rest) && |rest| == |s| - 1
    ensures forall x :: x in s ==> DistLe(Key(grid, k, first), Key(grid, k, x))
  {
    var sorted := SortBy(grid, k, s);
    first, rest := sorted[0], sorted[1..];
    assert sorted == [first] + rest;
    forall x | x in s ensures DistLe(Key(grid, k, first), Key(grid, k, x)) {
      assert x in multiset(sorted);
      var j :| 0 <= j < |sorted| && sorted[j] == x;
      if j > 0 {
        assert DistLe(Key(grid, k, sorted[0]), Key(grid, k, sorted[j]));
      }
    }
  }
}
