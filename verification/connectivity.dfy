/** The group floodFillSameLevel finds, defined without any traversal: the
    4-connected region of cells of one level around a start cell: empty
    unless the start cell holds that level, and otherwise the least set that
    contains the start cell and is closed under stepping to an orthogonal
    neighbour of that level.  Being a set, it cannot depend on
    the order in which a search visits the cells. */
module Connectivity {
  import opened Board

  /** The four orthogonal neighbours of p, in the order the flood fill pushes them. */
  function Neighbours(p: Pos): seq<Pos> {
    [Pos(p.x + 1, p.y), Pos(p.x - 1, p.y), Pos(p.x, p.y + 1), Pos(p.x, p.y - 1)]
  }

  /** p is on the board and holds `level`: the bounds and level tests a popped
      cell must pass (the visited test is kept apart). */
  predicate Holds(g: Grid, level: int, p: Pos)
    requires WellFormed(g)
  {
    InBounds(p) && At(g, p) == level
  }

  /** p is an orthogonal neighbour of some cell of s. */
  predicate Touches(p: Pos, s: set<Pos>) {
    Pos(p.x + 1, p.y) in s || Pos(p.x - 1, p.y) in s || Pos(p.x, p.y + 1) in s || Pos(p.x, p.y - 1) in s
  }

  /** s together with every board cell of `level` next to it. */
  function Grow(g: Grid, level: int, s: set<Pos>): (r: set<Pos>)
    requires WellFormed(g)
    ensures s <= r
    ensures s <= AllCells() ==> r <= AllCells()
  {
    s + set q | q in AllCells() && At(g, q) == level && Touches(q, s)
  }

  /** No cell of `level` lies next to a cell of s without being in s. */
  predicate Closed(g: Grid, level: int, s: set<Pos>)
    requires WellFormed(g)
  {
    forall q, n {:trigger n in Neighbours(q)} ::
      q in s && n in Neighbours(q) && Holds(g, level, n) ==> n in s
  }

  lemma StrictSubsetCard(a: set<Pos>, b: set<Pos>)
    requires a < b
    ensures |a| < |b|
  {
    assert |b| == |a| + |b - a|;
  }

  /** A set that growing does not enlarge is closed. */
  lemma FixedPointClosed(g: Grid, level: int, s: set<Pos>)
    requires WellFormed(g) && |Grow(g, level, s)| == |s|
    ensures Closed(g, level, s)
  {
    var t := Grow(g, level, s);
    assert |t| == |s| + |t - s|;
    assert t - s == {};
    forall q, n | q in s && n in Neighbours(q) && Holds(g, level, n)
      ensures n in s
    {
      assert Touches(n, s);
      assert n in t;
    }
  }

  /** Grow s until nothing more can be added. */
  function Close(g: Grid, level: int, s: set<Pos>): (r: set<Pos>)
    requires WellFormed(g) && s <= AllCells()
    ensures s <= r <= AllCells()
    ensures Closed(g, level, r)
    ensures (forall q :: q in s ==> Holds(g, level, q)) ==> forall q :: q in r ==> Holds(g, level, q)
    decreases |AllCells() - s|
  {
    var t := Grow(g, level, s);
    if |t| == |s| then
      FixedPointClosed(g, level, s);
      s
    else
      assert s != t;
      StrictSubsetCard(AllCells() - t, AllCells() - s);
      Close(g, level, t)
  }

  /** The group of `level` cells connected to `start`; empty unless `start`
      itself holds `level`.  Every cell of it holds `level`, and it is closed:
      an in-bounds neighbour of a group cell that holds `level` is in the group. */
  function Component(g: Grid, level: int, start: Pos): (r: set<Pos>)
    requires WellFormed(g)
    ensures forall q :: q in r ==> Holds(g, level, q)
    ensures start in r <==> Holds(g, level, start)
    ensures Closed(g, level, r)
  {
    if Holds(g, level, start) then Close(g, level, {start}) else {}
  }

  /** Growing to a fixed point never leaves a closed set that already holds the seed. */
  lemma {:induction false} CloseLeast(g: Grid, level: int, s: set<Pos>, t: set<Pos>)
    requires WellFormed(g) && s <= AllCells()
    requires s <= t && Closed(g, level, t)
    ensures Close(g, level, s) <= t
    decreases |AllCells() - s|
  {
    var u := Grow(g, level, s);
    if |u| != |s| {
      forall q | q in u
        ensures q in t
      {
        if q !in s {
          var v :=
            if Pos(q.x + 1, q.y) in s then Pos(q.x + 1, q.y)
            else if Pos(q.x - 1, q.y) in s then Pos(q.x - 1, q.y)
            else if Pos(q.x, q.y + 1) in s then Pos(q.x, q.y + 1)
            else Pos(q.x, q.y - 1);
          assert q in Neighbours(v);
        }
      }
      assert s != u;
      StrictSubsetCard(AllCells() - u, AllCells() - s);
      CloseLeast(g, level, u, t);
    }
  }

  /** The group is the least closed set holding the start cell: every cell
      it contains is connected to the start. */
  lemma ComponentLeast(g: Grid, level: int, start: Pos, t: set<Pos>)
    requires WellFormed(g)
    requires start in t && Closed(g, level, t)
    ensures Component(g, level, start) <= t
  {
    if Holds(g, level, start) {
      CloseLeast(g, level, {start}, t);
    }
  }

  /** n has been dealt with by a search that has visited `visited` and still
      has `stack` to pop: visited, waiting, or not a cell of `level`. */
  predicate Settled(g: Grid, level: int, n: Pos, visited: set<Pos>, stack: seq<Pos>)
    requires WellFormed(g)
  {
    n in visited || n in stack || !Holds(g, level, n)
  }

  /** Every neighbour of v is settled. */
  predicate Covered(g: Grid, level: int, v: Pos, visited: set<Pos>, stack: seq<Pos>)
    requires WellFormed(g)
  {
    Settled(g, level, Pos(v.x + 1, v.y), visited, stack) &&
    Settled(g, level, Pos(v.x - 1, v.y), visited, stack) &&
    Settled(g, level, Pos(v.x, v.y + 1), visited, stack) &&
    Settled(g, level, Pos(v.x, v.y - 1), visited, stack)
  }

  /** Every visited cell is covered. */
  predicate AllCovered(g: Grid, level: int, visited: set<Pos>, stack: seq<Pos>)
    requires WellFormed(g)
  {
    forall v {:trigger Covered(g, level, v, visited, stack)} ::
      v in visited ==> Covered(g, level, v, visited, stack)
  }

  /** Popping the top of the stack when it is visited already or not of
      `level` keeps every visited cell covered. */
  lemma DiscardKeepsCovered(g: Grid, level: int, visited: set<Pos>, stack: seq<Pos>)
    requires WellFormed(g) && AllCovered(g, level, visited, stack) && |stack| > 0
    requires stack[|stack| - 1] in visited || !Holds(g, level, stack[|stack| - 1])
    ensures AllCovered(g, level, visited, stack[..|stack| - 1])
  {
    var rest := stack[..|stack| - 1];
    assert stack == rest + [stack[|stack| - 1]];
    forall v | v in visited
      ensures Covered(g, level, v, visited, rest)
    {
      assert Covered(g, level, v, visited, stack);
    }
  }

  /** Visiting the popped top of the stack and pushing its neighbours keeps
      every visited cell covered. */
  lemma VisitKeepsCovered(g: Grid, level: int, visited: set<Pos>, stack: seq<Pos>)
    requires WellFormed(g) && AllCovered(g, level, visited, stack) && |stack| > 0
    ensures var p := stack[|stack| - 1];
      AllCovered(g, level, visited + {p}, stack[..|stack| - 1] + Neighbours(p))
  {
    var p := stack[|stack| - 1];
    var rest := stack[..|stack| - 1];
    assert stack == rest + [p];
    forall v | v in visited + {p}
      ensures Covered(g, level, v, visited + {p}, rest + Neighbours(p))
    {
      if v in visited {
        assert Covered(g, level, v, visited, stack);
      }
    }
  }

  /** Visiting a board cell not visited before brings the search closer to
      having visited the whole board. */
  lemma VisitShrinks(visited: set<Pos>, p: Pos)
    requires InBounds(p) && p !in visited
    ensures |AllCells() - (visited + {p})| < |AllCells() - visited|
  {
    assert p in AllCells() - visited;
    assert AllCells() - (visited + {p}) != AllCells() - visited;
    StrictSubsetCard(AllCells() - (visited + {p}), AllCells() - visited);
  }

  /** Every cell of `level` waiting on the stack belongs to s. */
  predicate Pending(g: Grid, level: int, s: set<Pos>, stack: seq<Pos>)
    requires WellFormed(g)
  {
    forall q :: q in stack && Holds(g, level, q) ==> q in s
  }

  /** Popping keeps the waiting cells of `level` inside s. */
  lemma PopPending(g: Grid, level: int, s: set<Pos>, stack: seq<Pos>)
    requires WellFormed(g) && Pending(g, level, s, stack) && |stack| > 0
    ensures Pending(g, level, s, stack[..|stack| - 1])
  {
    forall q | q in stack[..|stack| - 1]
      ensures q in stack
    {
      var i :| 0 <= i < |stack| - 1 && stack[..|stack| - 1][i] == q;
      assert stack[i] == q;
    }
  }

  /** Pushing the neighbours of a cell of a closed set s keeps the waiting
      cells of `level` inside s. */
  lemma PushPending(g: Grid, level: int, s: set<Pos>, rest: seq<Pos>, p: Pos)
    requires WellFormed(g) && Pending(g, level, s, rest) && Closed(g, level, s) && p in s
    ensures Pending(g, level, s, rest + Neighbours(p))
  {
    forall q | q in rest + Neighbours(p) && Holds(g, level, q)
      ensures q in s
    {
      if q !in rest {
        assert q in Neighbours(p);
      }
    }
  }

  /** Once the stack is empty, a search whose visited cells are all covered
      has visited a closed set. */
  lemma CoveredIsClosed(g: Grid, level: int, s: set<Pos>)
    requires WellFormed(g) && AllCovered(g, level, s, [])
    ensures Closed(g, level, s)
  {
    forall q, n | q in s && n in Neighbours(q) && Holds(g, level, n)
      ensures n in s
    {
      assert Covered(g, level, q, s, []);
    }
  }

  /** The invariant of floodFillSameLevel's loop, after it has visited
      `visited` (listed in `group` in visiting order) and still has `stack`
      to pop: it has visited only cells of the start's group, each once,
      the start is visited or waiting, and every neighbour of a visited
      cell is visited, waiting, or not of `level`. */
  ghost predicate Searching(g: Grid, level: int, start: Pos, visited: set<Pos>, group: seq<Pos>, stack: seq<Pos>)
    requires WellFormed(g)
  {
    var comp := Component(g, level, start);
    visited <= comp && (forall q :: q in visited <==> q in group) && |group| == |visited| &&
    Distinct(group) && Pending(g, level, comp, stack) &&
    (Holds(g, level, start) ==> start in visited || start in stack) &&
    AllCovered(g, level, visited, stack)
  }

  /** The search starts with nothing visited and the start cell on the stack. */
  lemma SearchStarts(g: Grid, level: int, start: Pos)
    requires WellFormed(g)
    ensures Searching(g, level, start, {}, [], [start])
  {
  }

  /** Popping a cell that is off the board, visited already or not of
      `level` keeps the invariant. */
  lemma SearchDiscards(g: Grid, level: int, start: Pos, visited: set<Pos>, group: seq<Pos>, stack: seq<Pos>)
    requires WellFormed(g) && Searching(g, level, start, visited, group, stack) && |stack| > 0
    requires stack[|stack| - 1] in visited || !Holds(g, level, stack[|stack| - 1])
    ensures Searching(g, level, start, visited, group, stack[..|stack| - 1])
  {
    var comp := Component(g, level, start);
    DiscardKeepsCovered(g, level, visited, stack);
    PopPending(g, level, comp, stack);
  }

  /** Visiting a popped cell of `level` that is not visited yet and pushing
      its four neighbours keeps the invariant, and leaves fewer board cells
      unvisited. */
  lemma SearchVisits(g: Grid, level: int, start: Pos, visited: set<Pos>, group: seq<Pos>, stack: seq<Pos>)
    requires WellFormed(g) && Searching(g, level, start, visited, group, stack) && |stack| > 0
    requires stack[|stack| - 1] !in visited && Holds(g, level, stack[|stack| - 1])
    ensures var p := stack[|stack| - 1];
      Searching(g, level, start, visited + {p}, group + [p], stack[..|stack| - 1] + Neighbours(p)) &&
      |AllCells() - (visited + {p})| < |AllCells() - visited|
  {
    var p := stack[|stack| - 1];
    var comp := Component(g, level, start);
    VisitKeepsCovered(g, level, visited, stack);
    VisitShrinks(visited, p);
    PopPending(g, level, comp, stack);
    assert p in comp;
    PushPending(g, level, comp, stack[..|stack| - 1], p);
    AppendDistinct(group, p);
  }

  /** When the stack runs empty the search has visited exactly the start's
      group, each cell once. */
  lemma SearchEnds(g: Grid, level: int, start: Pos, visited: set<Pos>, group: seq<Pos>)
    requires WellFormed(g) && Searching(g, level, start, visited, group, [])
    ensures visited == Component(g, level, start)
    ensures forall q :: q in group <==> q in Component(g, level, start)
    ensures |group| == |Component(g, level, start)| && Distinct(group)
  {
    CoveredIsClosed(g, level, visited);
    if Holds(g, level, start) {
      ComponentLeast(g, level, start, visited);
    }
  }
}
