/** The game board of game.js as a value: a GRID_SIZE x GRID_SIZE grid of
    levels indexed [y][x], where 0 is an empty cell and any other value is a
    tile of that level.  Also the row-major list of empty cells and the
    spawning rule that drops a tile on one of them. */
module Board {

  /** GRID_SIZE */
  const Size := 5
  /** BASE_SPAWN_LEVEL: the level of every tile spawned onto the board */
  const BaseSpawnLevel := 1
  /** MAX_BASE_LEVEL: the highest level the next-tile generator hands out */
  const MaxBaseLevel := 3
  /** COMBO_BONUS_THRESHOLD: the group size from which a merge is a combo */
  const ComboBonusThreshold := 5
  /** The number of tiles initBoard spawns on the fresh board */
  const InitialTiles := 4

  /** A cell coordinate; flood fill also forms coordinates just off the board. */
  datatype Pos = Pos(x: int, y: int)

  type Grid = seq<seq<int>>

  predicate WellFormed(g: Grid) {
    |g| == Size && forall y :: 0 <= y < Size ==> |g[y]| == Size
  }

  predicate InBounds(p: Pos) {
    0 <= p.x < Size && 0 <= p.y < Size
  }

  /** board[y][x] */
  function At(g: Grid, p: Pos): int
    requires WellFormed(g) && InBounds(p)
  {
    g[p.y][p.x]
  }

  /** Two well-formed grids that agree on every cell are the same grid. */
  lemma SameGrid(a: Grid, b: Grid)
    requires WellFormed(a) && WellFormed(b)
    requires forall q :: InBounds(q) ==> At(a, q) == At(b, q)
    ensures a == b
  {
    forall y | 0 <= y < Size
      ensures a[y] == b[y]
    {
      forall x | 0 <= x < Size
        ensures a[y][x] == b[y][x]
      {
        assert At(a, Pos(x, y)) == At(b, Pos(x, y));
      }
    }
  }

  /** The assignment board[p.y][p.x] = v. */
  function Put(g: Grid, p: Pos, v: int): (r: Grid)
    requires WellFormed(g) && InBounds(p)
    ensures WellFormed(r)
    ensures forall q :: InBounds(q) ==> At(r, q) == if q == p then v else At(g, q)
  {
    g[p.y := g[p.y][p.x := v]]
  }

  /** The board initBoard builds: every cell 0. */
  function EmptyGrid(): (g: Grid)
    ensures WellFormed(g)
    ensures forall q :: InBounds(q) ==> At(g, q) == 0
  {
    var row := [0, 0, 0, 0, 0];
    [row, row, row, row, row]
  }

  /** Every coordinate on the board. */
  function AllCells(): (s: set<Pos>)
    ensures forall q :: q in s <==> InBounds(q)
  {
    var s := set x, y | 0 <= x < Size && 0 <= y < Size :: Pos(x, y);
    assert forall q :: InBounds(q) ==> Pos(q.x, q.y) in s;
    s
  }

  /** The cells that hold a tile. */
  function Occupied(g: Grid): (s: set<Pos>)
    requires WellFormed(g)
    ensures forall q :: q in s <==> InBounds(q) && At(g, q) != 0
  {
    set q | q in AllCells() && At(g, q) != 0
  }

  ghost predicate Full(g: Grid)
    requires WellFormed(g)
  {
    forall q :: InBounds(q) ==> At(g, q) != 0
  }

  /** The empty cells of row y left of column x, left to right. */
  function EmptyInRow(g: Grid, y: int, x: int): (r: seq<Pos>)
    requires WellFormed(g) && 0 <= y < Size && 0 <= x <= Size
    ensures forall q :: q in r <==> q.y == y && 0 <= q.x < x && g[y][q.x] == 0
  {
    if x == 0 then []
    else EmptyInRow(g, y, x - 1) + (if g[y][x - 1] == 0 then [Pos(x - 1, y)] else [])
  }

  /** The empty cells of the rows above row y, in row-major order. */
  function EmptyInRows(g: Grid, y: int): (r: seq<Pos>)
    requires WellFormed(g) && 0 <= y <= Size
    ensures forall q :: q in r <==> 0 <= q.y < y && 0 <= q.x < Size && g[q.y][q.x] == 0
  {
    if y == 0 then []
    else EmptyInRows(g, y - 1) + EmptyInRow(g, y - 1, Size)
  }

  /** The list spawnRandomTile collects: every empty cell, row by row. */
  function EmptyCells(g: Grid): (r: seq<Pos>)
    requires WellFormed(g)
    ensures forall q :: q in r <==> InBounds(q) && At(g, q) == 0
    ensures r == [] <==> Full(g)
  {
    var r := EmptyInRows(g, Size);
    assert r != [] ==> r[0] in r;
    r
  }

  /** The cell spawnRandomTile picks when the caller's random choice is `choice`. */
  function SpawnTarget(g: Grid, choice: nat): (p: Pos)
    requires WellFormed(g) && !Full(g)
    ensures InBounds(p) && At(g, p) == 0
  {
    var empty := EmptyCells(g);
    empty[choice % |empty|]
  }

  /** spawnRandomTile(level): nothing on a full board, otherwise `level`
      written onto the chosen empty cell. */
  function Spawn(g: Grid, level: int, choice: nat): (r: Grid)
    requires WellFormed(g)
    ensures WellFormed(r)
    ensures Full(g) ==> r == g
    ensures !Full(g) ==>
      var p := SpawnTarget(g, choice);
      At(g, p) == 0 && At(r, p) == level &&
      forall q :: InBounds(q) && q != p ==> At(r, q) == At(g, q)
  {
    if EmptyCells(g) == [] then g else Put(g, SpawnTarget(g, choice), level)
  }

  /** Every empty cell is the spawn target for some random choice. */
  lemma EveryEmptyCellReachable(g: Grid, q: Pos)
    requires WellFormed(g) && InBounds(q) && At(g, q) == 0
    ensures !Full(g)
    ensures exists choice: nat :: SpawnTarget(g, choice) == q
  {
    var empty := EmptyCells(g);
    assert q in empty;
    var i :| 0 <= i < |empty| && empty[i] == q;
    SmallRemainder(i, |empty|);
    assert SpawnTarget(g, i) == q;
  }

  lemma SmallRemainder(i: nat, n: nat)
    requires i < n
    ensures i % n == i
  {
  }

  /** Spawning a tile onto a board with room occupies exactly one more cell. */
  lemma SpawnOccupiesOne(g: Grid, level: int, choice: nat)
    requires WellFormed(g) && !Full(g) && level != 0
    ensures SpawnTarget(g, choice) !in Occupied(g)
    ensures Occupied(Spawn(g, level, choice)) == Occupied(g) + {SpawnTarget(g, choice)}
    ensures |Occupied(Spawn(g, level, choice))| == |Occupied(g)| + 1
  {
    var p := SpawnTarget(g, choice);
    var r := Spawn(g, level, choice);
    assert Occupied(r) == Occupied(g) + {p} by {
      forall q ensures q in Occupied(r) <==> q in Occupied(g) + {p} {
        if InBounds(q) && q != p {
          assert At(r, q) == At(g, q);
        }
      }
    }
  }

  lemma SubsetCard(a: set<Pos>, b: set<Pos>)
    requires a <= b
    ensures |a| <= |b|
  {
    assert |b| == |a| + |b - a|;
  }

  /** A board with fewer tiles than initBoard spawns is never full. */
  lemma RoomForInitialTiles(g: Grid)
    requires WellFormed(g) && |Occupied(g)| < InitialTiles
    ensures !Full(g)
  {
    if Full(g) {
      var row := {Pos(0, 0), Pos(1, 0), Pos(2, 0), Pos(3, 0)};
      assert |row| == InitialTiles;
      assert row <= Occupied(g);
      SubsetCard(row, Occupied(g));
    }
  }

  /** No cell is listed twice. */
  ghost predicate Distinct(s: seq<Pos>) {
    forall q :: multiset(s)[q] <= 1
  }

  /** Appending a cell not yet listed keeps a list free of repeats. */
  lemma AppendDistinct(s: seq<Pos>, p: Pos)
    requires Distinct(s) && p !in s
    ensures Distinct(s + [p])
  {
    assert multiset(s + [p]) == multiset(s) + multiset{p};
  }

  /** The board after spawning a `level` tile for each choice in turn. */
  function SpawnAll(g: Grid, level: int, choices: seq<nat>): (r: Grid)
    requires WellFormed(g)
    ensures WellFormed(r)
  {
    if choices == [] then g
    else Spawn(SpawnAll(g, level, choices[..|choices| - 1]), level, choices[|choices| - 1])
  }

  /** Spawning for one more choice spawns on the board the earlier choices left. */
  lemma SpawnAllStep(g: Grid, level: int, choices: seq<nat>, i: nat)
    requires WellFormed(g) && i < |choices|
    ensures SpawnAll(g, level, choices[..i + 1]) == Spawn(SpawnAll(g, level, choices[..i]), level, choices[i])
  {
    assert choices[..i + 1][..i] == choices[..i];
  }

  /** initBoard's four spawns onto the empty board leave exactly as many
      tiles as spawns, each of level BASE_SPAWN_LEVEL. */
  lemma {:induction false} InitialTilesPlaced(choices: seq<nat>)
    requires |choices| <= InitialTiles
    ensures var g := SpawnAll(EmptyGrid(), BaseSpawnLevel, choices);
      |Occupied(g)| == |choices| &&
      forall q :: q in Occupied(g) ==> At(g, q) == BaseSpawnLevel
  {
    var g := SpawnAll(EmptyGrid(), BaseSpawnLevel, choices);
    if choices == [] {
      assert Occupied(g) == {};
    } else {
      var before := choices[..|choices| - 1];
      var h := SpawnAll(EmptyGrid(), BaseSpawnLevel, before);
      InitialTilesPlaced(before);
      RoomForInitialTiles(h);
      SpawnOccupiesOne(h, BaseSpawnLevel, choices[|choices| - 1]);
    }
  }
}
