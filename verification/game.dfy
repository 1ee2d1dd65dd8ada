/** The game state of game.js and the routines that change it: the board
    array, the score, move and highest-level counters and the next tile's
    level, which the script keeps as globals and updates in place.  Every
    method is proved against the board functions of Board, Connectivity and
    Merge.  Randomness is a caller-supplied number: `choice` picks the empty
    cell a tile spawns on, `roll` is the percentile of the random draw that
    decides the next tile's level. */
module Game {
  import opened Board
  import opened Connectivity
  import opened Merge

  /** generateNextTile's threshold choice, for a draw r in [0, 1) given as
      roll = floor(100 * r): r < 0.7 gives level 1, r < 0.9 level 2, else 3. */
  function NextLevel(roll: nat): (level: int)
    ensures BaseSpawnLevel <= level <= MaxBaseLevel
    ensures level == BaseSpawnLevel <==> roll < 70
    ensures level == MaxBaseLevel <==> roll >= 90
  {
    if roll < 70 then BaseSpawnLevel
    else if roll < 90 then 2
    else 3
  }

  class Session {
    /** board[y, x]: 0 for an empty cell, otherwise the tile's level */
    var board: array2<int>
    var score: int
    var moves: int
    var maxLevel: int
    var nextTileLevel: int
    /** The board as a value: cells[y][x] is board[y, x]. */
    ghost var cells: Grid

    /** The board is GRID_SIZE x GRID_SIZE and `cells` mirrors it. */
    ghost predicate Valid()
      reads this`board, this`cells, board
    {
      board.Length0 == Size && board.Length1 == Size && WellFormed(cells) &&
      forall q :: InBounds(q) ==> At(cells, q) == board[q.y, q.x]
    }

    /** The invariant of a game between moves: counters never negative, the
        next tile a base level, and no tile above the highest level seen. */
    ghost predicate Consistent()
      reads this, board
    {
      Valid() && 1 <= maxLevel && 0 <= score && 0 <= moves &&
      BaseSpawnLevel <= nextTileLevel <= MaxBaseLevel &&
      forall q :: InBounds(q) ==> 0 <= At(cells, q) <= maxLevel
    }

    /** Loading the page: the counters' initial values, then initBoard and
        generateNextTile. */
    constructor Start(choices: seq<nat>, roll: nat)
      requires |choices| == InitialTiles
      ensures Consistent()
      ensures score == 0 && moves == 0 && maxLevel == 1 && nextTileLevel == NextLevel(roll)
      ensures cells == SpawnAll(EmptyGrid(), BaseSpawnLevel, choices)
      ensures |Occupied(cells)| == InitialTiles
      ensures forall q :: q in Occupied(cells) ==> At(cells, q) == BaseSpawnLevel
    {
      board := new int[0, 0];
      cells := [];
      score, moves, maxLevel, nextTileLevel := 0, 0, 1, 1;
      new;
      InitBoard(choices);
      GenerateNextTile(roll);
    }

    /** initBoard: a fresh board of zeros, then four spawns of level
        BASE_SPAWN_LEVEL, the i-th at random choice choices[i]. */
    method InitBoard(choices: seq<nat>)
      requires |choices| == InitialTiles
      modifies this
      ensures Valid() && fresh(board)
      ensures cells == SpawnAll(EmptyGrid(), BaseSpawnLevel, choices)
      ensures |Occupied(cells)| == InitialTiles
      ensures forall q :: q in Occupied(cells) ==> At(cells, q) == BaseSpawnLevel
      ensures score == old(score) && moves == old(moves)
      ensures maxLevel == old(maxLevel) && nextTileLevel == old(nextTileLevel)
    {
      var b := new int[Size, Size];
      for y := 0 to Size
        modifies b
        invariant forall i, j :: 0 <= i < y && 0 <= j < Size ==> b[i, j] == 0
      {
        for x := 0 to Size
          modifies b
          invariant forall i, j :: 0 <= i < y && 0 <= j < Size ==> b[i, j] == 0
          invariant forall j :: 0 <= j < x ==> b[y, j] == 0
        {
          b[y, x] := 0;
        }
      }
      board, cells := b, EmptyGrid();
      for i := 0 to InitialTiles
        invariant Valid() && board == b
        invariant cells == SpawnAll(EmptyGrid(), BaseSpawnLevel, choices[..i])
        invariant score == old(score) && moves == old(moves)
        invariant maxLevel == old(maxLevel) && nextTileLevel == old(nextTileLevel)
      {
        SpawnAllStep(EmptyGrid(), BaseSpawnLevel, choices, i);
        SpawnRandomTile(BaseSpawnLevel, choices[i]);
      }
      assert choices[..InitialTiles] == choices;
      InitialTilesPlaced(choices);
    }

    /** spawnRandomTile(level): collect the empty cells row by row; on a full
        board do nothing, otherwise write `level` on the chosen one. */
    method SpawnRandomTile(level: int, choice: nat)
      requires Valid()
      modifies this`cells, board
      ensures Valid()
      ensures cells == Spawn(old(cells), level, choice)
    {
      var emptyCells: seq<Pos> := [];
      for y := 0 to Size
        invariant emptyCells == EmptyInRows(cells, y)
      {
        for x := 0 to Size
          invariant emptyCells == EmptyInRows(cells, y) + EmptyInRow(cells, y, x)
        {
          if board[y, x] == 0 {
            emptyCells := emptyCells + [Pos(x, y)];
          }
        }
      }
      if |emptyCells| == 0 {
        return;
      }
      var pos := emptyCells[choice % |emptyCells|];
      SetCell(pos, level);
    }

    /** The assignment board[p.y][p.x] = v, with its value mirror. */
    method SetCell(p: Pos, v: int)
      requires Valid() && InBounds(p)
      modifies this`cells, board
      ensures Valid() && cells == Put(old(cells), p, v)
    {
      board[p.y, p.x] := v;
      cells := Put(cells, p, v);
    }

    /** generateNextTile */
    method GenerateNextTile(roll: nat)
      modifies this`nextTileLevel
      ensures nextTileLevel == NextLevel(roll)
    {
      if roll < 70 {
        nextTileLevel := BaseSpawnLevel;
      } else if roll < 90 {
        nextTileLevel := 2;
      } else {
        nextTileLevel := 3;
      }
    }

    /** updateMaxLevel */
    method UpdateMaxLevel(level: int)
      modifies this`maxLevel
      ensures maxLevel == Max(old(maxLevel), level)
    {
      if level > maxLevel {
        maxLevel := level;
      }
    }

    /** floodFillSameLevel: a depth-first search with an explicit stack and a
        visited set.  The cells it returns, each once, are exactly the group
        of `level` cells connected to the start cell; the board is only read. */
    method FloodFillSameLevel(startX: int, startY: int, level: int) returns (group: seq<Pos>)
      requires Valid()
      ensures forall q :: q in group <==> q in Component(cells, level, Pos(startX, startY))
      ensures |group| == |Component(cells, level, Pos(startX, startY))|
      ensures forall i :: 0 <= i < |group| ==> InBounds(group[i]) && At(cells, group[i]) == level
      ensures Distinct(group)
    {
      ghost var start := Pos(startX, startY);
      var visited: set<Pos> := {};
      var stack := [Pos(startX, startY)];
      group := [];
      SearchStarts(cells, level, start);
      while |stack| > 0
        invariant Searching(cells, level, start, visited, group, stack)
        decreases |AllCells() - visited|, |stack|
      {
        var p := stack[|stack| - 1];
        if p.x < 0 || p.x >= Size || p.y < 0 || p.y >= Size
          || p in visited || board[p.y, p.x] != level
        {
          SearchDiscards(cells, level, start, visited, group, stack);
          stack := stack[..|stack| - 1];
          continue;
        }
        SearchVisits(cells, level, start, visited, group, stack);
        visited := visited + {p};
        group := group + [p];
        stack := stack[..|stack| - 1] + Neighbours(p);
      }
      SearchEnds(cells, level, start, visited, group);
      forall i | 0 <= i < |group|
        ensures InBounds(group[i]) && At(cells, group[i]) == level
      {
        assert group[i] in Component(cells, level, start);
      }
    }

    /** tryMergeAt(x, y): merge the anchor's group if it has three or more
        cells, then try again at the same anchor; returns the anchor's final level. */
    method TryMergeAt(x: int, y: int) returns (level: int)
      requires Valid() && InBounds(Pos(x, y))
      modifies this`score, this`maxLevel, this`cells, board
      ensures Valid()
      ensures var r := Resolve(old(cells), Pos(x, y), old(score), old(maxLevel));
        cells == r.grid && score == r.score && maxLevel == r.maxLevel && level == r.level
      decreases |Occupied(cells)|
    {
      var anchor := Pos(x, y);
      level := board[y, x];
      if level <= 0 {
        return;
      }
      var group := FloodFillSameLevel(x, y, level);
      if |group| < 3 {
        assert !CanMerge(cells, anchor);
        UpdateMaxLevel(level);
        return;
      }
      MergeRemovesTiles(cells, anchor, score, maxLevel);
      MergeGroup(x, y, level, group);
      level := TryMergeAt(x, y);
    }

    /** One merge of tryMergeAt: score the group, clear every group cell but
        the anchor, raise the anchor by one level (two for a combo) and
        record the new level. */
    method MergeGroup(x: int, y: int, level: int, group: seq<Pos>)
      requires Valid() && InBounds(Pos(x, y)) && level == board[y, x] && level > 0
      requires forall q :: q in group <==> q in Component(cells, level, Pos(x, y))
      requires |group| == |Component(cells, level, Pos(x, y))| >= 3
      modifies this`score, this`maxLevel, this`cells, board
      ensures Valid() && CanMerge(old(cells), Pos(x, y))
      ensures var s := MergeStep(old(cells), Pos(x, y), old(score), old(maxLevel));
        cells == s.grid && score == s.score && maxLevel == s.maxLevel
    {
      var anchor := Pos(x, y);
      forall i | 0 <= i < |group|
        ensures InBounds(group[i])
      {
        assert group[i] in group;
      }
      MergeByGroup(cells, anchor, score, maxLevel, level, group);

      var levelIncrease := ScoreMerge(level, |group|);
      ClearGroup(group, anchor);
      var newLevel := level + levelIncrease;
      SetCell(anchor, newLevel);
      UpdateMaxLevel(newLevel);
    }

    /** The scoring part of tryMergeAt for a group of `count` tiles of
        `level`: the level gain (two for a combo group, else one) and the
        points, level * count * 10 plus 20 for every tile from the combo
        threshold on. */
    method ScoreMerge(level: int, count: int) returns (levelIncrease: int)
      modifies this`score
      ensures levelIncrease == LevelIncrease(count)
      ensures score == old(score) + MergeScore(level, count)
    {
      levelIncrease := 1;
      if count >= ComboBonusThreshold {
        levelIncrease := 2;
      }
      score := score + level * count * 10;
      if count >= ComboBonusThreshold {
        score := score + (count - ComboBonusThreshold + 1) * 20;
      }
    }

    /** The clearing loop of tryMergeAt: every cell of the group except the
        anchor becomes empty, one after another. */
    method ClearGroup(group: seq<Pos>, anchor: Pos)
      requires Valid() && forall i :: 0 <= i < |group| ==> InBounds(group[i])
      modifies this`cells, board
      ensures Valid() && cells == ClearExcept(old(cells), group, anchor)
    {
      for i := 0 to |group|
        invariant Valid() && cells == ClearExcept(old(cells), group[..i], anchor)
      {
        assert group[..i + 1][..i] == group[..i];
        if group[i] != anchor {
          SetCell(group[i], 0);
        }
      }
      assert group[..|group|] == group;
    }

    /** The board and counter part of placeNextTileAtPoint, for the cell
        (x, y) the pointer was released over.  The row must exist (reading
        board[y][x] off a missing row is an error in the script); a column
        off the board reads as undefined, which the occupied-cell test
        rejects like a tile.  A rejected cell is left alone; otherwise the
        next tile goes there, the move is counted, the merge runs at that
        cell and a new next tile is drawn. */
    method PlaceNextTileAt(x: int, y: int, roll: nat)
      requires Consistent() && 0 <= y < Size
      modifies this`cells, this`score, this`moves, this`maxLevel, this`nextTileLevel, board
      ensures Consistent()
      ensures score >= old(score) && maxLevel >= old(maxLevel)
      ensures !InBounds(Pos(x, y)) || At(old(cells), Pos(x, y)) != 0 ==>
        cells == old(cells) && score == old(score) && moves == old(moves) &&
        maxLevel == old(maxLevel) && nextTileLevel == old(nextTileLevel)
      ensures InBounds(Pos(x, y)) && At(old(cells), Pos(x, y)) == 0 ==>
        moves == old(moves) + 1 && nextTileLevel == NextLevel(roll) &&
        var r := Resolve(Put(old(cells), Pos(x, y), old(nextTileLevel)), Pos(x, y), old(score), old(maxLevel));
        cells == r.grid && score == r.score && maxLevel == r.maxLevel
    {
      if x < 0 || x >= Size || board[y, x] != 0 {
        return;
      }
      ResolveWithinMax(Put(cells, Pos(x, y), nextTileLevel), Pos(x, y), score, maxLevel);
      DropNextTile(x, y, roll);
    }

    /** placeNextTileAtPoint past its occupied-cell test: the next tile is
        written on the empty cell (x, y), the move counted, the merge run at
        that cell and a new next tile drawn. */
    method DropNextTile(x: int, y: int, roll: nat)
      requires Valid() && InBounds(Pos(x, y))
      modifies this`cells, this`score, this`moves, this`maxLevel, this`nextTileLevel, board
      ensures Valid()
      ensures moves == old(moves) + 1 && nextTileLevel == NextLevel(roll)
      ensures var r := Resolve(Put(old(cells), Pos(x, y), old(nextTileLevel)), Pos(x, y), old(score), old(maxLevel));
        cells == r.grid && score == r.score && maxLevel == r.maxLevel
    {
      SetCell(Pos(x, y), nextTileLevel);
      moves := moves + 1;
      var mergedLevel := TryMergeAt(x, y);
      GenerateNextTile(roll);
    }
  }
}
