/** The rule-based ant of objects/ant.py, as written.

    An ant stands at (x, y) with x along the width and y along the height
    (`_random_movement` bounds x by the width and y by the height). `step` reads the
    cell with `grid.get(x, y)`, i.e. row = x and column = y, and computes the local
    similarity at that same (row = x, column = y), but the pick and drop rules store
    into `cells[y, x]`, i.e. row = y and column = x. The two coincide only when
    x = y. The stores go straight into the matrix, not through `GridWorld.set`, so
    the index of empty cells is not updated. Both defects are kept here; the module
    AntFixed holds the corrected step.

    Randomness is supplied: `draw` is the value of `random.random()` in [0, 1) and
    `choice` the index `random.choice` takes into the list of valid moves. At most
    one of the two rules evaluates its condition to true in a step, so at most one
    call of `random.random()` happens and a single draw models it. */
module Ants {
  import opened Wrappers
  import opened Grid
  import opened Arith

  /** A rule-based ant: position, carried colour (`None` when empty-handed) and the
      pick and drop thresholds k1 and k2. */
  datatype Ant = Ant(x: int, y: int, carrying: Option<int>, k1: real, k2: real)

  /** The grid and the ant after (part of) a step. */
  datatype State = State(grid: GridWorld, ant: Ant)

  /** `DIRECTIONS`: the eight (dx, dy) offsets, diagonals included. */
  const Directions: seq<(int, int)> :=
    [(-1, -1), (-1, 0), (-1, 1), (0, -1), (0, 1), (1, -1), (1, 0), (1, 1)]

  /** `DIRECTIONS` lists each of the eight king moves exactly once: every offset
      whose components lie in -1..1, except staying put. */
  lemma DirectionsAreKingMoves()
    ensures |Directions| == 8
    ensures forall i :: 0 <= i < |Directions| ==>
              Directions[i] != (0, 0) && Abs(Directions[i].0) <= 1 && Abs(Directions[i].1) <= 1
    ensures forall dx, dy :: Abs(dx) <= 1 && Abs(dy) <= 1 && (dx, dy) != (0, 0) ==> (dx, dy) in Directions
    ensures forall i, j :: 0 <= i < j < |Directions| ==> Directions[i] != Directions[j]
  {
  }

  /** The ant stands inside the grid: 0 <= x < width and 0 <= y < height. */
  predicate OnGrid(g: GridWorld, a: Ant) {
    0 <= a.x < g.width && 0 <= a.y < g.height
  }

  /** The thresholds are positive, as every caller passes them. */
  predicate Tuned(a: Ant) {
    a.k1 > 0.0 && a.k2 > 0.0
  }

  /** `RuleBasedAnt(grid, k1, k2, start_x, start_y)`: an explicit start coordinate is
      kept as given; a missing one is the supplied `random.randint(0, width - 1)`
      (resp. `height - 1`) draw. The ant starts empty-handed. */
  function NewAnt(g: GridWorld, k1: real, k2: real, startX: Option<int>, startY: Option<int>,
                  randomX: int, randomY: int): (a: Ant)
    requires startX.None? ==> 0 <= randomX < g.width
    requires startY.None? ==> 0 <= randomY < g.height
    ensures a.carrying == None && a.k1 == k1 && a.k2 == k2
    ensures startX.Some? ==> a.x == startX.value
    ensures startY.Some? ==> a.y == startY.value
    ensures startX.None? ==> a.x == randomX && 0 <= a.x < g.width
    ensures startY.None? ==> a.y == randomY && 0 <= a.y < g.height
    ensures startX.None? && startY.None? ==> OnGrid(g, a)
  {
    Ant(if startX.Some? then startX.value else randomX,
        if startY.Some? then startY.value else randomY,
        None, k1, k2)
  }

  // ------------------------------------------------------------ probabilities

  /** `(k1 / (k1 + sim)) ** 2`: for k1 > 0 and a similarity >= 0 a probability in
      (0, 1], and 1 at similarity 0, where every draw in [0, 1) picks. */
  function PickProbability(k1: real, sim: real): (p: real)
    requires k1 + sim != 0.0
    ensures k1 > 0.0 && 0.0 <= sim ==> 0.0 < p <= 1.0
    ensures k1 > 0.0 && sim == 0.0 ==> p == 1.0
  {
    var q := k1 / (k1 + sim);
    if k1 > 0.0 && 0.0 <= sim then
      FractionAtMostOne(k1, k1 + sim);
      SquareBounds(q);
      q * q
    else
      q * q
  }

  /** `(sim / (k2 + sim)) ** 2`: for k2 > 0 and a similarity >= 0 a probability in
      [0, 1), and 0 exactly at similarity 0, where no draw drops. */
  function DropProbability(k2: real, sim: real): (p: real)
    requires k2 + sim != 0.0
    ensures k2 > 0.0 && 0.0 <= sim ==> 0.0 <= p < 1.0
    ensures k2 > 0.0 && 0.0 <= sim ==> (p == 0.0 <==> sim == 0.0)
  {
    var q := sim / (k2 + sim);
    if k2 > 0.0 && 0.0 <= sim then
      assert 0.0 <= q < 1.0 by {
        assert sim < k2 + sim;
      }
      SquareBounds(q);
      assert sim > 0.0 ==> q > 0.0;
      q * q
    else
      q * q
  }

  lemma SquareBounds(q: real)
    requires 0.0 <= q <= 1.0
    ensures 0.0 <= q * q <= q
    ensures q < 1.0 ==> q * q < 1.0
    ensures q > 0.0 ==> q * q > 0.0
  {
  }

  lemma SquareMonotone(q: real, q': real)
    requires 0.0 <= q < q'
    ensures q * q < q' * q'
  {
    MulPositive(q' - q, q' + q);
    assert q' * q' - q * q == (q' - q) * (q' + q);
  }

  lemma FractionAtMostOne(a: real, b: real)
    requires 0.0 < a <= b
    ensures 0.0 < a / b <= 1.0
    ensures a == b ==> a / b == 1.0
  {
  }

  /** A positive numerator over a larger positive denominator gives less. */
  lemma DivShrinks(a: real, b: real, c: real)
    requires a > 0.0 && 0.0 < b < c
    ensures 0.0 < a / c < a / b
  {
    var x, y := a / b, a / c;
    assert x * b == a && y * c == a;
    assert y > 0.0;
    assert y * b < y * c by {
      MulPositive(y, c - b);
      assert y * c - y * b == y * (c - b);
    }
    assert (x - y) * b > 0.0 by {
      assert (x - y) * b == x * b - y * b;
    }
    PositiveFactor(x - y, b);
  }

  /** The pick probability falls as the similarity rises. */
  lemma PickFalls(k1: real, sim: real, sim': real)
    requires k1 > 0.0 && 0.0 <= sim < sim'
    ensures PickProbability(k1, sim') < PickProbability(k1, sim)
  {
    DivShrinks(k1, k1 + sim, k1 + sim');
    SquareMonotone(k1 / (k1 + sim'), k1 / (k1 + sim));
  }

  /** sim / (k2 + sim) and k2 / (k2 + sim) add up to 1. */
  lemma Complement(sim: real, k2: real)
    requires k2 + sim > 0.0
    ensures sim / (k2 + sim) == 1.0 - k2 / (k2 + sim)
  {
    var d := k2 + sim;
    var x, y := sim / d, k2 / d;
    assert x * d == sim && y * d == k2;
    assert x * d + y * d == sim + k2;
    assert (x + y) * d == x * d + y * d;
    assert (x + y - 1.0) * d == 0.0;
    assert x + y == 1.0;
  }

  /** The drop probability rises with the similarity: sim / (k2 + sim) is
      1 - k2 / (k2 + sim), and the subtracted fraction shrinks. */
  lemma DropRises(k2: real, sim: real, sim': real)
    requires k2 > 0.0 && 0.0 <= sim < sim'
    ensures DropProbability(k2, sim) < DropProbability(k2, sim')
  {
    DivShrinks(k2, k2 + sim, k2 + sim');
    var q, q' := sim / (k2 + sim), sim' / (k2 + sim');
    Complement(sim, k2);
    Complement(sim', k2);
    assert 0.0 <= q by {
      assert sim < k2 + sim;
    }
    SquareMonotone(q, q');
  }

  // ----------------------------------------------------------------- the rules

  /** The pick rule fires: empty-handed, the observed cell value non-zero, and the
      draw below the pick probability for the similarity at (row = x, column = y). */
  predicate PickFires(g: GridWorld, a: Ant, cellValue: int, draw: real)
    requires Shaped(g) && Tuned(a)
  {
    && a.carrying.None? && cellValue != 0
    && draw < PickProbability(a.k1, LocalSimilarity(g, a.x, a.y, cellValue))
  }

  /** The drop rule fires: carrying, the observed cell value zero, and the draw below
      the drop probability for the carried colour's similarity at (row = x, column = y). */
  predicate DropFires(g: GridWorld, a: Ant, cellValue: int, draw: real)
    requires Shaped(g) && Tuned(a)
  {
    && a.carrying.Some? && cellValue == 0
    && draw < DropProbability(a.k2, LocalSimilarity(g, a.x, a.y, a.carrying.value))
  }

  /** `_pickup_rule(cell_value)`: on success the ant carries the observed value and
      0 is stored at `cells[y][x]`. */
  function PickRule(s: State, cellValue: int, draw: real): (s': State)
    requires Shaped(s.grid) && OnGrid(s.grid, s.ant) && Tuned(s.ant)
    ensures PickFires(s.grid, s.ant, cellValue, draw) ==>
              s'.ant == s.ant.(carrying := Some(cellValue))
              && s'.grid == s.grid.(cells := Write(s.grid.cells, s.ant.y, s.ant.x, 0))
    ensures !PickFires(s.grid, s.ant, cellValue, draw) ==> s' == s
  {
    var g, a := s.grid, s.ant;
    if a.carrying.None? && cellValue != 0 then
      var sim := LocalSimilarity(g, a.x, a.y, cellValue);
      if draw < PickProbability(a.k1, sim) then
        State(g.(cells := Write(g.cells, a.y, a.x, 0)), a.(carrying := Some(cellValue)))
      else s
    else s
  }

  /** `_drop_rule(cell_value)`: on success the carried colour is stored at
      `cells[y][x]` and the ant becomes empty-handed. */
  function DropRule(s: State, cellValue: int, draw: real): (s': State)
    requires Shaped(s.grid) && OnGrid(s.grid, s.ant) && Tuned(s.ant)
    ensures DropFires(s.grid, s.ant, cellValue, draw) ==>
              s'.ant == s.ant.(carrying := None)
              && s'.grid == s.grid.(cells := Write(s.grid.cells, s.ant.y, s.ant.x, s.ant.carrying.value))
    ensures !DropFires(s.grid, s.ant, cellValue, draw) ==> s' == s
  {
    var g, a := s.grid, s.ant;
    if a.carrying.Some? && cellValue == 0 then
      var sim := LocalSimilarity(g, a.x, a.y, a.carrying.value);
      if draw < DropProbability(a.k2, sim) then
        State(g.(cells := Write(g.cells, a.y, a.x, a.carrying.value)), a.(carrying := None))
      else s
    else s
  }

  /** Pick requires empty hands and an occupied observed cell, drop requires a load
      and an empty observed cell: the two never fire on the same observed value. */
  lemma PickDropExclusive(g: GridWorld, a: Ant, cellValue: int, draw: real)
    requires Shaped(g) && Tuned(a)
    ensures !(PickFires(g, a, cellValue, draw) && DropFires(g, a, cellValue, draw))
  {
  }

  // ------------------------------------------------------------------ movement

  /** The offsets of `dirs` that keep (x, y) inside the grid, in order. */
  function ValidFrom(width: int, height: int, x: int, y: int, dirs: seq<(int, int)>): (ms: seq<(int, int)>)
    ensures forall i :: 0 <= i < |ms| ==>
              ms[i] in dirs && 0 <= x + ms[i].0 < width && 0 <= y + ms[i].1 < height
  {
    if dirs == [] then []
    else
      var (dx, dy) := dirs[0];
      (if 0 <= x + dx < width && 0 <= y + dy < height then [dirs[0]] else [])
      + ValidFrom(width, height, x, y, dirs[1..])
  }

  /** `valid_moves` of `_random_movement`. */
  function ValidMoves(g: GridWorld, a: Ant): seq<(int, int)> {
    ValidFrom(g.width, g.height, a.x, a.y, Directions)
  }

  lemma {:induction false} ValidFromComplete(width: int, height: int, x: int, y: int, dirs: seq<(int, int)>, d: (int, int))
    requires d in dirs && 0 <= x + d.0 < width && 0 <= y + d.1 < height
    ensures d in ValidFrom(width, height, x, y, dirs)
  {
    if dirs[0] != d {
      ValidFromComplete(width, height, x, y, dirs[1..], d);
    }
  }

  lemma {:induction false} ValidFromNone(width: int, height: int, x: int, y: int, dirs: seq<(int, int)>)
    requires forall i :: 0 <= i < |dirs| ==> !(0 <= x + dirs[i].0 < width && 0 <= y + dirs[i].1 < height)
    ensures ValidFrom(width, height, x, y, dirs) == []
  {
    if dirs != [] {
      ValidFromNone(width, height, x, y, dirs[1..]);
    }
  }

  /** `_random_movement`: with at least one valid offset the ant takes the one at
      index `choice`; with none it stays put. Nothing else about the ant changes. */
  function Move(g: GridWorld, a: Ant, choice: nat): (a': Ant)
    requires ValidMoves(g, a) != [] ==> choice < |ValidMoves(g, a)|
    ensures a'.carrying == a.carrying && a'.k1 == a.k1 && a'.k2 == a.k2
    ensures ValidMoves(g, a) != [] ==>
              (a'.x - a.x, a'.y - a.y) in Directions && 0 <= a'.x < g.width && 0 <= a'.y < g.height
    ensures (a'.x, a'.y) != (a.x, a.y) <==> ValidMoves(g, a) != []
  {
    var moves := ValidMoves(g, a);
    if moves == [] then a
    else
      var (dx, dy) := moves[choice];
      a.(x := a.x + dx, y := a.y + dy)
  }

  /** An ant inside the grid stays inside it after moving. */
  lemma MoveStaysOnGrid(g: GridWorld, a: Ant, choice: nat)
    requires OnGrid(g, a)
    requires ValidMoves(g, a) != [] ==> choice < |ValidMoves(g, a)|
    ensures OnGrid(g, Move(g, a, choice))
  {
  }

  /** On a 1 x 1 grid there is no valid move; on a grid at least 2 x 2 an ant
      inside it always has one (so it always moves). */
  lemma MovesAvailable(g: GridWorld, a: Ant)
    requires OnGrid(g, a)
    ensures g.width == 1 && g.height == 1 ==> ValidMoves(g, a) == []
    ensures g.width >= 2 && g.height >= 2 ==> ValidMoves(g, a) != []
  {
    if g.width >= 2 && g.height >= 2 {
      var dx := if a.x + 1 < g.width then 1 else -1;
      var dy := if a.y + 1 < g.height then 1 else -1;
      assert (dx, dy) in Directions;
      ValidFromComplete(g.width, g.height, a.x, a.y, Directions, (dx, dy));
    }
    if g.width == 1 && g.height == 1 {
      ValidFromNone(1, 1, a.x, a.y, Directions);
    }
  }

  // ---------------------------------------------------------------------- step

  /** What `step` needs: a shaped grid, the ant inside it with positive thresholds,
      a draw in [0, 1) and a choice index into the valid moves. */
  predicate StepReady(g: GridWorld, a: Ant, draw: real, choice: nat) {
    && Shaped(g) && OnGrid(g, a) && Tuned(a)
    && 0.0 <= draw < 1.0
    && (ValidMoves(g, a) != [] ==> choice < |ValidMoves(g, a)|)
  }

  /** `RuleBasedAnt.step`: observe `get(x, y)` once, apply the pick rule and then the
      drop rule to that observed value, then move. The shape, the thresholds and the
      index of empty cells are untouched; `StepEffect` says what changes. */
  function Step(g: GridWorld, a: Ant, draw: real, choice: nat): (s': State)
    requires StepReady(g, a, draw, choice)
    ensures Shaped(s'.grid) && OnGrid(s'.grid, s'.ant) && Tuned(s'.ant)
    ensures s'.grid.height == g.height && s'.grid.width == g.width && s'.grid.numColors == g.numColors
    ensures s'.grid.emptyCells == g.emptyCells
    ensures s'.ant.k1 == a.k1 && s'.ant.k2 == a.k2
  {
    var v := Get(g, a.x, a.y);
    var picked := PickRule(State(g, a), v, draw);
    var dropped := DropRule(picked, v, draw);
    RulesKeepFrame(g, a, v, draw);
    State(dropped.grid, Move(dropped.grid, dropped.ant, choice))
  }

  /** The rules keep the shape of the grid, its index of empty cells, and the ant's
      position and thresholds. */
  lemma RulesKeepFrame(g: GridWorld, a: Ant, v: int, draw: real)
    requires Shaped(g) && OnGrid(g, a) && Tuned(a)
    ensures var d := DropRule(PickRule(State(g, a), v, draw), v, draw);
            && Shaped(d.grid) && d.grid.height == g.height && d.grid.width == g.width
            && d.grid.numColors == g.numColors && d.grid.emptyCells == g.emptyCells
            && d.ant.x == a.x && d.ant.y == a.y && d.ant.k1 == a.k1 && d.ant.k2 == a.k2
  {
    var picked := PickRule(State(g, a), v, draw);
    WriteKeepsShape(g, a.y, a.x, 0);
    assert Shaped(picked.grid) && picked.grid.height == g.height && picked.grid.width == g.width;
    if picked.ant.carrying.Some? {
      WriteKeepsShape(picked.grid, a.y, a.x, picked.ant.carrying.value);
    }
  }

  /** What one step does to the load and the matrix: a pick on the observed value
      (row = x, column = y) stores 0 at row y, column x and loads the ant; a drop
      stores the load there and empties the ant's hands; otherwise the grid and the
      load stay as they were. */
  lemma StepEffect(g: GridWorld, a: Ant, draw: real, choice: nat)
    requires StepReady(g, a, draw, choice)
    ensures var s', v := Step(g, a, draw, choice), Get(g, a.x, a.y);
            PickFires(g, a, v, draw) ==>
              s'.ant.carrying == Some(v) && s'.grid.cells == Write(g.cells, a.y, a.x, 0)
    ensures var s', v := Step(g, a, draw, choice), Get(g, a.x, a.y);
            DropFires(g, a, v, draw) ==>
              s'.ant.carrying == None && s'.grid.cells == Write(g.cells, a.y, a.x, a.carrying.value)
    ensures var s', v := Step(g, a, draw, choice), Get(g, a.x, a.y);
            !PickFires(g, a, v, draw) && !DropFires(g, a, v, draw) ==>
              s'.grid == g && s'.ant.carrying == a.carrying
  {
    StepRules(g, a, Get(g, a.x, a.y), draw);
  }

  /** A step changes no cell other than row y, column x. */
  lemma StepKeepsOthers(g: GridWorld, a: Ant, draw: real, choice: nat)
    requires StepReady(g, a, draw, choice)
    ensures var s' := Step(g, a, draw, choice);
            forall r, c :: (r != a.y || c != a.x) ==> Get(s'.grid, r, c) == Get(g, r, c)
  {
    StepRules(g, a, Get(g, a.x, a.y), draw);
  }

  /** The rules do not move the ant: its new position is where `Move` takes it from
      its old one on the old grid, one of the eight offsets when it has a valid move
      and the same cell when it has none. */
  lemma StepMoves(g: GridWorld, a: Ant, draw: real, choice: nat)
    requires StepReady(g, a, draw, choice)
    ensures var s', m := Step(g, a, draw, choice), Move(g, a, choice);
            s'.ant.x == m.x && s'.ant.y == m.y
  {
    var v := Get(g, a.x, a.y);
    var dropped := DropRule(PickRule(State(g, a), v, draw), v, draw);
    assert Step(g, a, draw, choice).ant == Move(dropped.grid, dropped.ant, choice);
    assert ValidMoves(dropped.grid, dropped.ant) == ValidMoves(g, a);
  }

  /** The two rules in sequence on one observed value: at most one of them changes
      anything, and whatever changes is the cell at row y, column x. */
  lemma StepRules(g: GridWorld, a: Ant, v: int, draw: real)
    requires Shaped(g) && OnGrid(g, a) && Tuned(a)
    ensures var dropped := DropRule(PickRule(State(g, a), v, draw), v, draw);
            && dropped.ant.x == a.x && dropped.ant.y == a.y
            && dropped.ant.k1 == a.k1 && dropped.ant.k2 == a.k2
            && (PickFires(g, a, v, draw) ==>
                  dropped == State(g.(cells := Write(g.cells, a.y, a.x, 0)), a.(carrying := Some(v))))
            && (DropFires(g, a, v, draw) ==>
                  dropped == State(g.(cells := Write(g.cells, a.y, a.x, a.carrying.value)), a.(carrying := None)))
            && (!PickFires(g, a, v, draw) && !DropFires(g, a, v, draw) ==> dropped == State(g, a))
  {
    var picked := PickRule(State(g, a), v, draw);
    if PickFires(g, a, v, draw) {
      WriteKeepsShape(g, a.y, a.x, 0);
      assert !DropFires(picked.grid, picked.ant, v, draw);
    } else {
      assert picked == State(g, a);
    }
  }

  // -------------------------------------------------------------- conservation

  /** 1 when the ant carries colour `c`. */
  function Carried(a: Ant, c: int): nat {
    if a.carrying == Some(c) then 1 else 0
  }

  /** Objects of a colour on the grid plus in the ant's hands. */
  function Inventory(g: GridWorld, a: Ant, c: int): nat {
    CountValue(g.cells, c) + Carried(a, c)
  }

  /** When the observed cell (row = x, column = y) and the written cell (row = y,
      column = x) are the same cell, i.e. x = y, a step conserves every colour. */
  lemma StepConservesOnDiagonal(g: GridWorld, a: Ant, draw: real, choice: nat, c: int)
    requires StepReady(g, a, draw, choice) && a.x == a.y && c != 0
    ensures Inventory(Step(g, a, draw, choice).grid, Step(g, a, draw, choice).ant, c) == Inventory(g, a, c)
  {
    var v := Get(g, a.x, a.y);
    assert v == g.cells[a.y][a.x];
    StepEffect(g, a, draw, choice);
    if PickFires(g, a, v, draw) {
      CountValueWrite(g.cells, a.y, a.x, 0, c);
    } else if DropFires(g, a, v, draw) {
      CountValueWrite(g.cells, a.y, a.x, a.carrying.value, c);
    }
  }

  /** An empty-handed ant that observes an object at (row = x, column = y) while the
      cell it writes, (row = y, column = x), is already empty: when the pick fires
      the grid keeps every object and the ant carries one more, so the step creates
      an object of that colour. */
  lemma PickCopies(g: GridWorld, a: Ant, draw: real, choice: nat, c: int)
    requires StepReady(g, a, draw, choice)
    requires Get(g, a.x, a.y) == c && g.cells[a.y][a.x] == 0 && PickFires(g, a, c, draw)
    ensures Inventory(Step(g, a, draw, choice).grid, Step(g, a, draw, choice).ant, c) == Inventory(g, a, c) + 1
  {
    StepEffect(g, a, draw, choice);
    WriteSame(g.cells, a.y, a.x);
  }

  /** A concrete instance of `PickCopies`: on the 2 x 2 grid holding a single
      object at row 0, column 1, an empty-handed ant at x = 0, y = 1 observes that
      object while the cell it writes, row 1, column 0, is empty, and with the draw
      0 the pick fires (its probability is positive). The grid holds one object of
      colour 1, so after the step the colour's inventory is 2. */
  lemma OffDiagonalPickDuplicates(g: GridWorld, a: Ant)
    requires g.height == 2 && g.width == 2 && g.cells == [[0, 1], [0, 0]]
    requires a == Ant(0, 1, None, 1.0, 1.0)
    ensures StepReady(g, a, 0.0, 0)
    ensures Get(g, a.x, a.y) == 1 && g.cells[a.y][a.x] == 0 && PickFires(g, a, 1, 0.0)
    ensures Inventory(g, a, 1) == 1
    ensures Inventory(Step(g, a, 0.0, 0).grid, Step(g, a, 0.0, 0).ant, 1) == 2
  {
    ReadyAtFirstMove(g, a, 0.0);
    OffDiagonalPicks(g, a);
    OffDiagonalCount(g, a);
    PickCopies(g, a, 0.0, 0, 1);
  }

  /** On a grid at least 2 x 2 the first valid move always exists, so the choice 0
      is acceptable for any ant inside the grid. */
  lemma ReadyAtFirstMove(g: GridWorld, a: Ant, draw: real)
    requires Shaped(g) && OnGrid(g, a) && Tuned(a) && 0.0 <= draw < 1.0
    requires g.width >= 2 && g.height >= 2
    ensures StepReady(g, a, draw, 0)
  {
    MovesAvailable(g, a);
  }

  lemma OffDiagonalPicks(g: GridWorld, a: Ant)
    requires g.height == 2 && g.width == 2 && g.cells == [[0, 1], [0, 0]]
    requires a == Ant(0, 1, None, 1.0, 1.0)
    ensures Shaped(g) && Tuned(a) && PickFires(g, a, 1, 0.0)
  {
  }

  lemma OffDiagonalCount(g: GridWorld, a: Ant)
    requires g.cells == [[0, 1], [0, 0]] && a.carrying.None?
    ensures Inventory(g, a, 1) == 1
  {
    assert g.cells[1..] == [[0, 0]];
    assert g.cells[1..][1..] == [];
    assert CountValue(g.cells, 1) == RowCount([0, 1], 1) + RowCount([0, 0], 1) + CountValue([], 1);
    assert RowCount([0, 1], 1) == 1 by {
      assert [0, 1][1..] == [1];
    }
    assert RowCount([0, 0], 1) == 0 by {
      assert [0, 0][1..] == [0];
    }
  }

  /** The rules store into the matrix directly: when a pick empties a cell that
      held an object, that cell is empty but missing from the index of empty cells,
      so the grid is no longer Valid. */
  lemma PickStalesIndex(g: GridWorld, a: Ant, draw: real, choice: nat)
    requires StepReady(g, a, draw, choice) && Valid(g)
    requires PickFires(g, a, Get(g, a.x, a.y), draw) && g.cells[a.y][a.x] != 0
    ensures !Valid(Step(g, a, draw, choice).grid)
  {
    StepEffect(g, a, draw, choice);
    var g' := Step(g, a, draw, choice).grid;
    assert g'.cells[a.y][a.x] == 0;
    assert Pos(a.y, a.x) in EmptyIndex(g');
    assert Pos(a.y, a.x) !in g.emptyCells;
  }

  /** The concrete instance: on the 1 x 1 grid holding one object, the ant picks it
      (no neighbours, similarity 0, pick probability 1) and the grid is no longer
      Valid. */
  lemma PickStalesEmptyIndex(g: GridWorld, a: Ant)
    requires g == GridWorld(1, 1, 1, [[1]], {})
    requires a == Ant(0, 0, None, 1.0, 1.0)
    ensures Valid(g) && StepReady(g, a, 0.0, 0)
    ensures !Valid(Step(g, a, 0.0, 0).grid)
  {
    assert EmptyIndex(g) == {} by {
      forall p | p in EmptyIndex(g) ensures false {
      }
    }
    SingleCellHasNoNeighbors(g);
    MovesAvailable(g, a);
    assert PickFires(g, a, 1, 0.0);
    PickStalesIndex(g, a, 0.0, 0);
  }
}
