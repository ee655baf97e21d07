/** The corrected ant step. It differs from `Ants.Step` in two places: the cell is
    observed, and the similarity computed, at row = y, column = x, which is the cell
    the rules write; and the writes go through `GridWorld.set`, so the index of
    empty cells stays exact. Movement is unchanged. */
module AntFixed {
  import opened Wrappers
  import opened Grid
  import opened Ants

  /** The pick rule fires, observing row = y, column = x. */
  predicate PickFires(g: GridWorld, a: Ant, cellValue: int, draw: real)
    requires Shaped(g) && Tuned(a)
  {
    && a.carrying.None? && cellValue != 0
    && draw < PickProbability(a.k1, LocalSimilarity(g, a.y, a.x, cellValue))
  }

  /** The drop rule fires, observing row = y, column = x. */
  predicate DropFires(g: GridWorld, a: Ant, cellValue: int, draw: real)
    requires Shaped(g) && Tuned(a)
  {
    && a.carrying.Some? && cellValue == 0
    && draw < DropProbability(a.k2, LocalSimilarity(g, a.y, a.x, a.carrying.value))
  }

  function PickRule(s: State, cellValue: int, draw: real): State
    requires Valid(s.grid) && Tuned(s.ant)
  {
    if PickFires(s.grid, s.ant, cellValue, draw)
    then State(Set(s.grid, s.ant.y, s.ant.x, 0), s.ant.(carrying := Some(cellValue)))
    else s
  }

  function DropRule(s: State, cellValue: int, draw: real): State
    requires Valid(s.grid) && Tuned(s.ant)
  {
    if DropFires(s.grid, s.ant, cellValue, draw)
    then State(Set(s.grid, s.ant.y, s.ant.x, s.ant.carrying.value), s.ant.(carrying := None))
    else s
  }

  /** What the corrected step needs: the index of empty cells is exact to begin with. */
  predicate StepReady(g: GridWorld, a: Ant, draw: real, choice: nat) {
    Valid(g) && Ants.StepReady(g, a, draw, choice)
  }

  /** The corrected step: observe the cell the rules write, apply the pick rule and
      then the drop rule to that value through `set`, then move. The index of empty
      cells stays exact and only the ant's own cell can change. */
  function StepFixed(g: GridWorld, a: Ant, draw: real, choice: nat): (s': State)
    requires StepReady(g, a, draw, choice)
    ensures Valid(s'.grid) && OnGrid(s'.grid, s'.ant) && Tuned(s'.ant)
    ensures s'.grid.height == g.height && s'.grid.width == g.width && s'.grid.numColors == g.numColors
    ensures forall r, c :: (r != a.y || c != a.x) ==> Get(s'.grid, r, c) == Get(g, r, c)
    ensures var v := Get(g, a.y, a.x);
            PickFires(g, a, v, draw) ==>
              s'.ant.carrying == Some(v) && s'.grid.cells == Write(g.cells, a.y, a.x, 0)
    ensures var v := Get(g, a.y, a.x);
            DropFires(g, a, v, draw) ==>
              s'.ant.carrying == None && s'.grid.cells == Write(g.cells, a.y, a.x, a.carrying.value)
    ensures var v := Get(g, a.y, a.x);
            !PickFires(g, a, v, draw) && !DropFires(g, a, v, draw) ==>
              s'.grid == g && s'.ant.carrying == a.carrying
  {
    var v := Get(g, a.y, a.x);
    var picked := PickRule(State(g, a), v, draw);
    assert PickFires(g, a, v, draw) ==> !DropFires(picked.grid, picked.ant, v, draw);
    var dropped := DropRule(picked, v, draw);
    State(dropped.grid, Move(dropped.grid, dropped.ant, choice))
  }

  /** The corrected step conserves every colour: objects on the grid plus the one
      in the ant's hands. */
  lemma StepFixedConserves(g: GridWorld, a: Ant, draw: real, choice: nat, c: int)
    requires StepReady(g, a, draw, choice) && c != 0
    ensures Inventory(StepFixed(g, a, draw, choice).grid, StepFixed(g, a, draw, choice).ant, c)
            == Inventory(g, a, c)
  {
    var v := Get(g, a.y, a.x);
    assert v == g.cells[a.y][a.x];
    if PickFires(g, a, v, draw) {
      CountValueWrite(g.cells, a.y, a.x, 0, c);
    } else if DropFires(g, a, v, draw) {
      CountValueWrite(g.cells, a.y, a.x, a.carrying.value, c);
    }
  }
}
