# Element Merge: the board engine of game.js, modelled and proved in Dafny

game.js runs a tile-merge puzzle on a 5 x 5 board of levels (0 is an empty
cell). The player drops the "next tile" on an empty cell. The script then
flood-fills the group of same-level tiles 4-connected to that cell. If the
group has three or more cells, the player scores, every group cell but the
dropped one is emptied, and the dropped cell rises one level (two for a
group of five or more). The merge then runs again at the same cell, so
merges can cascade. The board starts with four level-1 tiles on random
empty cells. Each next tile is level 1, 2 or 3, drawn 70/20/10.

The project has four modules:

- `Board` (board.dfy): the board as a value (`seq<seq<int>>`, indexed
  `[y][x]`). It holds the game constants, the row-major list of empty
  cells, and the spawning rule `Spawn`.
- `Connectivity` (connectivity.dfy): the group floodFillSameLevel finds,
  defined without any traversal. `Component` is empty unless the start cell
  holds the level; otherwise it is the least set that contains the start
  cell and is closed under stepping to an orthogonal neighbour of the same
  level. Being a set, it cannot depend on the order of the search.
  The module also holds the loop invariant `Searching` of the depth-first
  search and the lemmas that carry it through the loop.
- `Merge` (merge.dfy): one merge step (`MergeStep`) and the whole cascade
  (`Resolve`) as functions on board values, with their properties.
- `Game` (game.dfy): the script's global state as the class `Session`.
  - `board` is an `array2<int>` that the methods update in place.
  - `score`, `moves`, `maxLevel` and `nextTileLevel` are fields.
  - A ghost field `cells` mirrors the board as a value; `Valid()` ties the
    two together.
  - Each routine of the script is a method, proved against the functions
    of the other modules. FloodFillSameLevel, for example, is proved to
    return exactly `Component`, each cell once.
  - `Consistent()` is the between-moves invariant: counters non-negative,
    the next tile a base level, no tile above `maxLevel`. `Start`
    establishes it and `PlaceNextTileAt` preserves it.

Randomness is a parameter:

- spawnRandomTile's `Math.floor(Math.random() * n)` is `choice % n` for a
  caller-supplied `choice: nat`. Every empty cell is reachable this way
  (`Board.EveryEmptyCellReachable`).
- generateNextTile's draw `r` is given as the percentile `roll = floor(100 * r)`.
  Then `r < 0.7` is `roll < 70` and `r < 0.9` is `roll < 90`.

## Model

| member | source | states |
|---|---|---|
| Board.Put | game.js:108 | writing v at p changes that cell to v and no other |
| Board.EmptyGrid | game.js:40-48 | the fresh board is 5 x 5 with every cell 0 |
| Board.EmptyInRow | game.js:97-99 | the inner x-loop lists exactly the empty cells of row y left of column x |
| Board.EmptyInRows | game.js:96-101 | the collecting loop's list after y rows holds exactly the empty cells of those rows |
| Board.EmptyCells | game.js:95-101 | the collected list holds exactly the empty cells, and is empty exactly when the board is full |
| Board.SpawnTarget | game.js:107 | the chosen cell is on the board and empty |
| Board.Spawn | game.js:94-109 | a full board is unchanged; otherwise only the chosen empty cell changes, and it gets `level` |
| Board.EveryEmptyCellReachable | game.js:107 | every empty cell is the spawn target for some random choice |
| Board.SpawnOccupiesOne | game.js:102-108 | on a board with room, a spawn occupies exactly one more cell, the chosen one |
| Board.RoomForInitialTiles | game.js:50-52 | a board with fewer than four tiles is never full, so each of initBoard's spawns places a tile |
| Board.SpawnAll | game.js:50-52 | repeated spawns keep a 5 x 5 board |
| Board.InitialTilesPlaced | game.js:39-53 | initBoard's spawns leave exactly as many tiles as spawns, all of level BASE_SPAWN_LEVEL |
| Connectivity.Neighbours | game.js:333-336 | definition, no ensures: the four orthogonal neighbours in the order the flood fill pushes them; the search invariant and `Closed` are stated over it |
| Connectivity.Holds | game.js:326-328 | definition, no ensures: the bounds test and the level test a popped cell must pass (the visited test is separate); `Component` and the search lemmas are stated over it |
| Connectivity.Grow | game.js:317-340 | reference definition of the group: one round of adding same-level neighbours only adds cells, and only board cells |
| Connectivity.FixedPointClosed | game.js:317-340 | reference definition of the group: a set that a round of growth does not enlarge is closed under same-level neighbours |
| Connectivity.Close | game.js:317-340 | growth to a fixed point yields a closed superset of the seed on the board; if every seed cell has the level, so does every added cell |
| Connectivity.Component | game.js:317-340 | the group holds only in-bounds cells of `level`; it contains the start exactly when the start holds `level`; it is closed under same-level neighbours |
| Connectivity.CloseLeast | game.js:317-340 | reference definition of the group: the fixed point lies inside every closed set that holds the seed |
| Connectivity.ComponentLeast | game.js:317-340 | the group is the least closed set holding the start: every cell in it is connected to the start |
| Connectivity.DiscardKeepsCovered | game.js:325-328 | skipping a popped cell that is visited or not of `level` leaves every neighbour of a visited cell visited, stacked or not of `level` |
| Connectivity.VisitKeepsCovered | game.js:330-336 | visiting the popped cell and pushing its four neighbours keeps that coverage |
| Connectivity.VisitShrinks | game.js:330 | visiting a new board cell leaves fewer board cells unvisited, so the loop ends |
| Connectivity.PopPending | game.js:325 | popping keeps every same-level stacked cell inside the group |
| Connectivity.PushPending | game.js:333-336 | pushing the neighbours of a group cell keeps every same-level stacked cell inside the group |
| Connectivity.CoveredIsClosed | game.js:324-339 | when the stack is empty, the visited set is closed under same-level neighbours |
| Connectivity.SearchStarts | game.js:318-320 | the loop invariant holds with nothing visited and the start on the stack |
| Connectivity.SearchDiscards | game.js:325-328 | the invariant survives a skipped pop |
| Connectivity.SearchVisits | game.js:325-336 | the invariant survives a visit, and the unvisited board shrinks |
| Connectivity.SearchEnds | game.js:324-339 | at loop exit the visited set is the group, and the returned list holds each group cell once |
| Merge.Max | game.js:342-346 | the result is at least both inputs and equal to one of them |
| Merge.LevelIncrease | game.js:286-289 | definition, no ensures: the anchor gains 1 level, or 2 from COMBO_BONUS_THRESHOLD on; `ScoreMerge` and `MergeStepEffect` are stated against it |
| Merge.MergeScore | game.js:291-296 | definition, no ensures: level * count * 10, plus (count - 4) * 20 from COMBO_BONUS_THRESHOLD on; `ScoreMerge` and `MergeStepEffect` are stated against it and `MergeScorePositive` proves it positive |
| Merge.CanMerge | game.js:276-280 | definition, no ensures: the anchor holds a tile (level > 0) and its group has at least three cells; `Resolve` merges exactly when it holds |
| Merge.MergeScorePositive | game.js:291-296 | a merge of three or more tiles of a positive level scores a positive amount |
| Merge.Collapse | game.js:298-307 | the anchor gets v, other cells of the set get 0, all other cells are kept |
| Merge.CollapseOccupied | game.js:298-307 | collapsing a group of tiles removes exactly the group cells other than the anchor from the occupied set |
| Merge.MergeStep | game.js:285-309 | one merge keeps a 5 x 5 board, raises the score strictly and never lowers maxLevel |
| Merge.MergeStepEffect | game.js:285-309 | one merge raises the anchor by 1, or by 2 for a group of five or more; it empties the rest of the group and keeps every other cell; it adds level * count * 10 plus 20 per tile from the fifth on; maxLevel becomes the larger of itself and the new level |
| Merge.MergeRemovesTiles | game.js:298-307 | one merge takes count - 1 >= 2 tiles off the board and adds none |
| Merge.ClearExcept | game.js:298-303 | the clearing loop keeps a 5 x 5 board |
| Merge.ClearExceptEffect | game.js:298-303 | the clearing loop empties exactly the listed cells other than the anchor |
| Merge.MergeByGroup | game.js:278-309 | given a list with exactly the group's cells, each once, scoring it, clearing it but the anchor and writing the raised level is exactly one merge step |
| Merge.Resolve | game.js:274-314 | an empty anchor changes nothing; a group below three changes only maxLevel, to at least the anchor's level; score and maxLevel never decrease |
| Merge.ResolveRemovesTiles | game.js:298-313 | the cascade only empties cells, and it removes at least two tiles per merge, so it terminates |
| Merge.ResolveOnlyClears | game.js:298-313 | every cell but the anchor ends with its old tile or empty |
| Merge.ResolveSettles | game.js:274-314 | the returned level is the anchor's final level; it is at least the starting level and at most maxLevel; the cascade stops only when the anchor's group is below three |
| Merge.MergeStepWithinMax | game.js:298-309 | after one merge, cells other than the anchor stay within maxLevel and the anchor holds a tile |
| Merge.ResolveWithinMax | game.js:274-314 | if no tile other than the anchor exceeds maxLevel, then after the cascade no tile exceeds the new maxLevel |
| Game.NextLevel | game.js:112-122 | the next tile is level 1, 2 or 3; level 1 exactly when the draw is below 0.7, level 3 exactly when it is 0.9 or more |
| Game.Session.Start | game.js:28-36 | the page load gives counters 0, 0, 1, a fresh board with exactly four level-1 tiles, a next tile drawn by generateNextTile, and the invariant `Consistent` |
| Game.Session.InitBoard | game.js:39-53 | the new board is the empty board after four spawns of level 1, with exactly four tiles; the counters are untouched |
| Game.Session.SpawnRandomTile | game.js:94-109 | the loops collect the row-major list of empty cells; the board afterwards is `Spawn` of the board before |
| Game.Session.SetCell | game.js:108 | writing one array cell keeps the board and its mirror in step |
| Game.Session.GenerateNextTile | game.js:112-122 | the next tile level is `NextLevel` of the draw |
| Game.Session.UpdateMaxLevel | game.js:342-346 | maxLevel becomes the larger of itself and the level |
| Game.Session.FloodFillSameLevel | game.js:317-340 | the returned list holds exactly the cells of `Component`, each once, all in bounds and of `level`; the board is only read |
| Game.Session.TryMergeAt | game.js:274-314 | board, score, maxLevel and the returned level are exactly those of `Resolve` on the board before |
| Game.Session.MergeGroup | game.js:285-309 | one pass of tryMergeAt over a group of three or more leaves board, score and maxLevel exactly as `MergeStep` |
| Game.Session.ScoreMerge | game.js:285-296 | the level gain is 1, or 2 from COMBO_BONUS_THRESHOLD on, and the score grows by `MergeScore` |
| Game.Session.ClearGroup | game.js:298-303 | the forEach over the group leaves the board as `ClearExcept` |
| Game.Session.PlaceNextTileAt | game.js:254-268 | an occupied cell or a column off the board changes nothing; otherwise the tile is dropped, moves grows by 1, board, score and maxLevel are those of `Resolve` after the drop, and the next tile is redrawn; `Consistent` is preserved; score and maxLevel never decrease |
| Game.Session.DropNextTile | game.js:259-268 | the drop, the move count, the cascade and the redraw, stated as above |

## Left out

- Rendering and the page: renderBoard, createTileElement, renderNextTile,
  updateStatsUI and the DOM lookups at load time. These only display state.
- Dragging: startDrag, the next-tile drag and the ghost element. In
  placeNextTileAtPoint, the `elementFromPoint` / `closest(".cell")` lookup is
  left out too. `PlaceNextTileAt` takes the cell's x and y as integers.
- `PlaceNextTileAt` requires the row to exist. In the script, reading
  `board[y][x]` from a missing row throws. A `parseInt` result of NaN is not
  modelled.
- `Math.random()` is a parameter. Spawning takes `choice: nat` and
  generateNextTile a percentile `roll: nat` (see above). Floating-point
  rounding of `Math.random() * n` and of `r < 0.7` at the boundaries is not
  modelled.
- JavaScript numbers are doubles. The model's counters are unbounded
  integers, so precision loss past 2^53 is not modelled.
- floodFillSameLevel's visited set holds `"x,y"` strings. The model uses a
  set of positions, which is equivalent because the key of two integers is
  injective.
- `mergedLevel`, the value placeNextTileAtPoint receives from tryMergeAt, is
  unused by the script. The model computes it and does not use it either.
- `Merge.Outcome.merges` counts merges for the proofs only. The script has
  no such counter.
- The matching modes other than level equality, the line/2x2 "core" pattern
  classifier and its area-clear effect are not in game.js. The model has
  level matching and the collapse-and-upgrade merge only, as the script does.
- The script does not check coordinates against the board. The model
  follows the script rather than a bounds-checking interface: a column off
  the board is rejected like an occupied cell, and a row off the board is
  excluded by a precondition.
- A group of five or more is a combo: the anchor rises two levels and earns
  20 bonus points per tile from the fifth. So a six-tile level-1 group gives
  level 3 and 6 * 10 + 40 points, not level 2 and 60 points. The model
  follows the script.
