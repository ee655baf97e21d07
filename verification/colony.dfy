/** The runner instantiated with the corrected ant step on the grid world and the
    clustering score: a whole run neither creates nor destroys objects. */
module Colony {
  import opened Wrappers
  import opened Grid
  import opened Ants
  import opened AntFixed
  import Metrics
  import Simulation

  /** The random input of one ant step: the draw for the rules and the move choice. */
  datatype Dice = Dice(draw: real, choice: nat)

  /** The corrected step as a total function: an input the step does not accept
      (a stale index, an ant off the grid, a draw outside [0, 1), a move index past
      the valid moves, which `random.choice` never produces) leaves both as they
      are. Conservation does not rest on this fallback: `StepFixedConserves` holds
      for every accepted step, and the fallback only makes the function total. */
  function AntStep(g: GridWorld, a: Ant, d: Dice): (res: (GridWorld, Ant))
    ensures Valid(g) ==> Valid(res.0)
    ensures res.0.height == g.height && res.0.width == g.width
  {
    if AntFixed.StepReady(g, a, d.draw, d.choice)
    then var s := StepFixed(g, a, d.draw, d.choice); (s.grid, s.ant)
    else (g, a)
  }

  /** The score as a total function of the grid; 0.0 for a matrix that is not shaped. */
  function Score(g: GridWorld): real {
    if Shaped(g) then Metrics.ClusteringScore(g) else 0.0
  }

  /** Objects of colour c carried by the ants. */
  function CarriedBy(ants: seq<Ant>, c: int): nat {
    if ants == [] then 0 else Carried(ants[0], c) + CarriedBy(ants[1..], c)
  }

  /** Objects of colour c on the grid and in all hands. */
  function Total(g: GridWorld, ants: seq<Ant>, c: int): nat {
    CountValue(g.cells, c) + CarriedBy(ants, c)
  }

  lemma AntStepConserves(g: GridWorld, a: Ant, d: Dice, c: int)
    requires c != 0
    ensures Inventory(AntStep(g, a, d).0, AntStep(g, a, d).1, c) == Inventory(g, a, c)
  {
    if AntFixed.StepReady(g, a, d.draw, d.choice) {
      StepFixedConserves(g, a, d.draw, d.choice, c);
    }
  }

  /** One tick conserves every colour. */
  lemma {:induction false} TickConserves(g: GridWorld, ants: seq<Ant>, rs: seq<Dice>, c: int)
    requires |rs| == |ants| && c != 0
    ensures var (g', ants') := Simulation.Activate(AntStep, g, ants, rs);
            Total(g', ants', c) == Total(g, ants, c)
    decreases |ants|
  {
    if ants != [] {
      var (g1, a1) := AntStep(g, ants[0], rs[0]);
      AntStepConserves(g, ants[0], rs[0], c);
      TickConserves(g1, ants[1..], rs[1..], c);
      var (g2, rest) := Simulation.Activate(AntStep, g1, ants[1..], rs[1..]);
      assert Simulation.Activate(AntStep, g, ants, rs) == (g2, [a1] + rest);
      assert ([a1] + rest)[1..] == rest;
    }
  }

  /** Every tick keeps the index of empty cells exact. */
  lemma {:induction false} TickKeepsValid(g: GridWorld, ants: seq<Ant>, rs: seq<Dice>)
    requires |rs| == |ants| && Valid(g)
    ensures Valid(Simulation.Activate(AntStep, g, ants, rs).0)
    decreases |ants|
  {
    if ants != [] {
      TickKeepsValid(AntStep(g, ants[0], rs[0]).0, ants[1..], rs[1..]);
    }
  }

  /** Any number of ticks conserves every colour and keeps the grid valid. */
  lemma {:induction false} RunConserves(g: GridWorld, ants: seq<Ant>, rand: seq<seq<Dice>>, t: nat, c: int)
    requires t <= |rand| && (forall k :: 0 <= k < |rand| ==> |rand[k]| == |ants|) && c != 0
    ensures var (g', ants') := Simulation.After(AntStep, g, ants, rand, t);
            Total(g', ants', c) == Total(g, ants, c)
            && (Valid(g) ==> Valid(g'))
  {
    if t > 0 {
      RunConserves(g, ants, rand, t - 1, c);
      var (g1, ants1) := Simulation.After(AntStep, g, ants, rand, t - 1);
      TickConserves(g1, ants1, rand[t - 1], c);
      if Valid(g) {
        TickKeepsValid(g1, ants1, rand[t - 1]);
      }
    }
  }

  /** A successful run of the colony leaves every colour's total unchanged and the
      grid valid, and its final quality is the score of the final grid. */
  method RunColony(sim: Simulation.Sim<GridWorld, Ant>, trackInterval: int, rand: seq<seq<Dice>>)
    returns (res: Result<Simulation.Outcome<GridWorld, Ant>, Simulation.RunError>)
    requires Simulation.RandomnessFits(rand, sim.numSteps, |sim.ants|) && Valid(sim.grid)
    ensures res.Failure? <==> sim.numSteps > 0 && trackInterval == 0
    ensures res.Success? ==>
              && Valid(res.value.sim.grid)
              && (forall c :: c != 0 ==> Total(res.value.sim.grid, res.value.sim.ants, c) == Total(sim.grid, sim.ants, c))
              && (sim.numSteps > 0 ==> Simulation.FinalQuality(res.value.sim) == Score(res.value.sim.grid))
  {
    res := Simulation.Run(sim, trackInterval, AntStep, Score, false, rand);
    if res.Success? {
      forall c | c != 0
        ensures Total(res.value.sim.grid, res.value.sim.ants, c) == Total(sim.grid, sim.ants, c)
      {
        RunConserves(sim.grid, sim.ants, rand, sim.numSteps, c);
      }
      RunConserves(sim.grid, sim.ants, rand, sim.numSteps, 1);
      if sim.numSteps > 0 {
        Simulation.RecordedEndsWithFinal(AntStep, Score, sim.grid, sim.ants, rand, trackInterval);
      }
    }
  }
}
