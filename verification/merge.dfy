/** The merge rule of tryMergeAt as functions on board values: one merge
    step (collapse a group of three or more same-level tiles into the anchor
    and raise it), and the whole cascade, which repeats the step at the same
    anchor until its group is smaller than three.  The cascade terminates
    because every step removes count - 1 >= 2 tiles from the board. */
module Merge {
  import opened Board
  import opened Connectivity

  /** updateMaxLevel's rule: the new maximum after seeing `level`. */
  function Max(maxLevel: int, level: int): (m: int)
    ensures m >= maxLevel && m >= level
    ensures m == maxLevel || m == level
  {
    if level > maxLevel then level else maxLevel
  }

  /** Levels gained by the anchor when a group of `count` tiles merges. */
  function LevelIncrease(count: int): int {
    if count >= ComboBonusThreshold then 2 else 1
  }

  /** Points scored by merging `count` tiles of `level`. */
  function MergeScore(level: int, count: int): int {
    level * count * 10 + (if count >= ComboBonusThreshold then (count - ComboBonusThreshold + 1) * 20 else 0)
  }

  lemma MergeScorePositive(level: int, count: int)
    requires level > 0 && count >= 3
    ensures MergeScore(level, count) > 0
  {
    assert level * count >= count by {
      assert level * count == (level - 1) * count + count;
    }
  }

  /** The anchor holds a tile whose same-level group has at least three cells. */
  predicate CanMerge(g: Grid, p: Pos)
    requires WellFormed(g) && InBounds(p)
  {
    At(g, p) > 0 && |Component(g, At(g, p), p)| >= 3
  }

  /** The board after clearing every cell of `group` but the anchor and
      writing `v` at the anchor. */
  function Collapse(g: Grid, group: set<Pos>, anchor: Pos, v: int): (r: Grid)
    requires WellFormed(g)
    ensures WellFormed(r)
    ensures forall q :: InBounds(q) ==>
      At(r, q) == if q == anchor then v else if q in group then 0 else At(g, q)
  {
    seq(Size, y requires 0 <= y < Size =>
      seq(Size, x requires 0 <= x < Size =>
        if Pos(x, y) == anchor then v else if Pos(x, y) in group then 0 else g[y][x]))
  }

  /** Clearing all of a group of tiles but the anchor, and keeping a tile at
      the anchor, removes exactly the other group cells from the occupied set. */
  lemma CollapseOccupied(g: Grid, group: set<Pos>, anchor: Pos, v: int)
    requires WellFormed(g) && InBounds(anchor) && anchor in group && v != 0
    requires group <= Occupied(g)
    ensures Occupied(Collapse(g, group, anchor, v)) == Occupied(g) - (group - {anchor})
    ensures |Occupied(Collapse(g, group, anchor, v))| == |Occupied(g)| - (|group| - 1)
  {
    var r := Collapse(g, group, anchor, v);
    var gone := group - {anchor};
    assert Occupied(r) == Occupied(g) - gone;
    assert |gone| == |group| - 1;
    assert |Occupied(g)| == |Occupied(g) - gone| + |gone| by {
      assert Occupied(g) - gone + gone == Occupied(g);
    }
  }

  /** The state tryMergeAt's merge step works on. */
  datatype Step = Step(grid: Grid, score: int, maxLevel: int)

  /** One merge at anchor p: the body of tryMergeAt before its recursive call. */
  function MergeStep(g: Grid, p: Pos, score: int, maxLevel: int): (r: Step)
    requires WellFormed(g) && InBounds(p) && CanMerge(g, p)
    ensures WellFormed(r.grid)
    ensures r.score > score && r.maxLevel >= maxLevel
  {
    var level := At(g, p);
    var group := Component(g, level, p);
    var count := |group|;
    var newLevel := level + LevelIncrease(count);
    MergeScorePositive(level, count);
    Step(Collapse(g, group, p, newLevel), score + MergeScore(level, count), Max(maxLevel, newLevel))
  }

  /** What one merge does: the anchor rises one level (two for a combo
      group), every other cell of its group is emptied and every other cell
      is kept; the score grows by level * count * 10 plus 20 per tile from
      the combo threshold on; maxLevel becomes the larger of itself and the
      new level. */
  lemma MergeStepEffect(g: Grid, p: Pos, score: int, maxLevel: int)
    requires WellFormed(g) && InBounds(p) && CanMerge(g, p)
    ensures var r := MergeStep(g, p, score, maxLevel);
      var level := At(g, p);
      var group := Component(g, level, p);
      var count := |group|;
      var newLevel := if count >= ComboBonusThreshold then level + 2 else level + 1;
      (forall q :: InBounds(q) ==>
         At(r.grid, q) == if q == p then newLevel else if q in group then 0 else At(g, q)) &&
      r.score == score + level * count * 10 +
                 (if count >= ComboBonusThreshold then (count - ComboBonusThreshold + 1) * 20 else 0) &&
      r.maxLevel >= newLevel && (r.maxLevel == newLevel || r.maxLevel == maxLevel)
  {
  }

  /** The clearing loop of tryMergeAt: each listed cell but the anchor
      emptied, in list order. */
  function ClearExcept(g: Grid, group: seq<Pos>, anchor: Pos): (r: Grid)
    requires WellFormed(g) && forall i :: 0 <= i < |group| ==> InBounds(group[i])
    ensures WellFormed(r)
  {
    if group == [] then g
    else
      var rest := ClearExcept(g, group[..|group| - 1], anchor);
      var last := group[|group| - 1];
      if last == anchor then rest else Put(rest, last, 0)
  }

  /** The clearing loop empties exactly the listed cells other than the
      anchor and leaves every other cell as it was. */
  lemma {:induction false} ClearExceptEffect(g: Grid, group: seq<Pos>, anchor: Pos)
    requires WellFormed(g) && forall i :: 0 <= i < |group| ==> InBounds(group[i])
    ensures forall q :: InBounds(q) ==>
      At(ClearExcept(g, group, anchor), q) == if q != anchor && q in group then 0 else At(g, q)
  {
    if group != [] {
      var front := group[..|group| - 1];
      ClearExceptEffect(g, front, anchor);
      assert group == front + [group[|group| - 1]];
    }
  }

  /** tryMergeAt's own steps, given the flood-fill list of the anchor's
      group: adding the score, clearing the listed cells but the anchor and
      writing the raised level at the anchor, make exactly one merge step. */
  lemma MergeByGroup(g: Grid, p: Pos, score: int, maxLevel: int, level: int, group: seq<Pos>)
    requires WellFormed(g) && InBounds(p) && level == At(g, p) && CanMerge(g, p)
    requires forall i :: 0 <= i < |group| ==> InBounds(group[i])
    requires forall q :: q in group <==> q in Component(g, level, p)
    requires |group| == |Component(g, level, p)|
    ensures var s := MergeStep(g, p, score, maxLevel);
      s.grid == Put(ClearExcept(g, group, p), p, level + LevelIncrease(|group|)) &&
      s.score == score + MergeScore(level, |group|) &&
      s.maxLevel == Max(maxLevel, level + LevelIncrease(|group|))
  {
    var s := MergeStep(g, p, score, maxLevel);
    var h := Put(ClearExcept(g, group, p), p, level + LevelIncrease(|group|));
    MergeStepEffect(g, p, score, maxLevel);
    ClearExceptEffect(g, group, p);
    forall q | InBounds(q)
      ensures At(h, q) == At(s.grid, q)
    {
    }
    SameGrid(h, s.grid);
  }

  /** A merge takes the group's tiles other than the anchor off the board,
      at least two of them, and adds none. */
  lemma MergeRemovesTiles(g: Grid, p: Pos, score: int, maxLevel: int)
    requires WellFormed(g) && InBounds(p) && CanMerge(g, p)
    ensures var r := MergeStep(g, p, score, maxLevel);
      Occupied(r.grid) == Occupied(g) - (Component(g, At(g, p), p) - {p}) &&
      |Occupied(r.grid)| == |Occupied(g)| - (|Component(g, At(g, p), p)| - 1) <= |Occupied(g)| - 2
  {
    var level := At(g, p);
    var group := Component(g, level, p);
    CollapseOccupied(g, group, p, level + LevelIncrease(|group|));
  }

  /** What tryMergeAt leaves behind: the board, the counters, the level it
      returns, and (for the proofs) how many merges the cascade made. */
  datatype Outcome = Outcome(grid: Grid, score: int, maxLevel: int, level: int, merges: nat)

  /** tryMergeAt(x, y) with its recursion: merge at p as long as the anchor's
      group has three or more cells. */
  function Resolve(g: Grid, p: Pos, score: int, maxLevel: int): (r: Outcome)
    requires WellFormed(g) && InBounds(p)
    ensures WellFormed(r.grid)
    // an empty anchor: nothing changes
    ensures At(g, p) <= 0 ==> r == Outcome(g, score, maxLevel, At(g, p), 0)
    // a group below three: only maxLevel can change
    ensures At(g, p) > 0 && !CanMerge(g, p) ==>
      r == Outcome(g, score, Max(maxLevel, At(g, p)), At(g, p), 0)
    ensures r.score >= score && r.maxLevel >= maxLevel
    decreases |Occupied(g)|
  {
    var level := At(g, p);
    if level <= 0 then Outcome(g, score, maxLevel, level, 0)
    else if !CanMerge(g, p) then Outcome(g, score, Max(maxLevel, level), level, 0)
    else
      var s := MergeStep(g, p, score, maxLevel);
      MergeRemovesTiles(g, p, score, maxLevel);
      var r := Resolve(s.grid, p, s.score, s.maxLevel);
      r.(merges := r.merges + 1)
  }

  /** The cascade terminates because each merge takes at least two tiles off
      the board and none is ever added. */
  lemma {:induction false} ResolveRemovesTiles(g: Grid, p: Pos, score: int, maxLevel: int)
    requires WellFormed(g) && InBounds(p)
    ensures var r := Resolve(g, p, score, maxLevel);
      Occupied(r.grid) <= Occupied(g) && |Occupied(r.grid)| + 2 * r.merges <= |Occupied(g)|
    decreases |Occupied(g)|
  {
    if At(g, p) > 0 && CanMerge(g, p) {
      var s := MergeStep(g, p, score, maxLevel);
      MergeRemovesTiles(g, p, score, maxLevel);
      ResolveRemovesTiles(s.grid, p, s.score, s.maxLevel);
    }
  }

  /** Only the anchor gains a level: every other cell keeps its tile or is emptied. */
  lemma {:induction false} ResolveOnlyClears(g: Grid, p: Pos, score: int, maxLevel: int)
    requires WellFormed(g) && InBounds(p)
    ensures var r := Resolve(g, p, score, maxLevel);
      forall q :: InBounds(q) && q != p ==> At(r.grid, q) == At(g, q) || At(r.grid, q) == 0
    decreases |Occupied(g)|
  {
    if At(g, p) > 0 && CanMerge(g, p) {
      var s := MergeStep(g, p, score, maxLevel);
      MergeRemovesTiles(g, p, score, maxLevel);
      MergeStepEffect(g, p, score, maxLevel);
      ResolveOnlyClears(s.grid, p, s.score, s.maxLevel);
    }
  }

  /** The anchor only climbs, maxLevel covers it, and the cascade stops
      only when the anchor cannot merge any more. */
  lemma {:induction false} ResolveSettles(g: Grid, p: Pos, score: int, maxLevel: int)
    requires WellFormed(g) && InBounds(p) && At(g, p) > 0
    ensures var r := Resolve(g, p, score, maxLevel);
      At(r.grid, p) == r.level && r.level >= At(g, p) && r.maxLevel >= r.level && !CanMerge(r.grid, p)
    decreases |Occupied(g)|
  {
    if CanMerge(g, p) {
      var s := MergeStep(g, p, score, maxLevel);
      MergeRemovesTiles(g, p, score, maxLevel);
      MergeStepEffect(g, p, score, maxLevel);
      ResolveSettles(s.grid, p, s.score, s.maxLevel);
    }
  }

  /** A merge step keeps every cell but the anchor within maxLevel and
      leaves a tile at the anchor. */
  lemma MergeStepWithinMax(g: Grid, p: Pos, score: int, maxLevel: int)
    requires WellFormed(g) && InBounds(p) && CanMerge(g, p)
    requires forall q :: InBounds(q) && q != p ==> 0 <= At(g, q) <= maxLevel
    ensures var s := MergeStep(g, p, score, maxLevel);
      At(s.grid, p) > 0 && forall q :: InBounds(q) && q != p ==> 0 <= At(s.grid, q) <= s.maxLevel
  {
    MergeStepEffect(g, p, score, maxLevel);
  }

  /** If every level on the board except the anchor's is within maxLevel,
      then after the cascade every level on the board is within the new maxLevel. */
  lemma {:induction false} ResolveWithinMax(g: Grid, p: Pos, score: int, maxLevel: int)
    requires WellFormed(g) && InBounds(p) && At(g, p) > 0
    requires forall q :: InBounds(q) && q != p ==> 0 <= At(g, q) <= maxLevel
    ensures var r := Resolve(g, p, score, maxLevel);
      forall q :: InBounds(q) ==> 0 <= At(r.grid, q) <= r.maxLevel
    decreases |Occupied(g)|
  {
    if CanMerge(g, p) {
      var s := MergeStep(g, p, score, maxLevel);
      MergeRemovesTiles(g, p, score, maxLevel);
      MergeStepWithinMax(g, p, score, maxLevel);
      ResolveWithinMax(s.grid, p, s.score, s.maxLevel);
    }
  }
}
