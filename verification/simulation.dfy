/** The simulation runner: every tick each ant steps once, in list order, on the
    shared grid; the clustering score is then recorded every `trackInterval` ticks
    and on the last tick, and an optional callback sees every tick.

    The runner is generic in the grid `G`, the ant `A` and the random input `R` one
    ant step consumes: the ant step and the score are parameters, so the runner's
    bookkeeping is modelled independently of the ant rules. */
module Simulation {
  import opened Wrappers
  import opened Arith

  datatype Sim<G, A> = Sim(grid: G, ants: seq<A>, numSteps: nat, history: seq<real>)

  /** What `step_callback(step + 1, grid, quality, ants)` receives after a tick. */
  datatype Event<G, A> = Event(step: nat, grid: G, quality: real, ants: seq<A>)

  datatype RunError = ZeroTrackInterval

  /** What a run produces: the updated simulation, the callback's calls, and the
      ant activations in order as (tick, index of the ant in the list). */
  datatype Outcome<G, A> = Outcome(sim: Sim<G, A>, calls: seq<Event<G, A>>, activations: seq<(nat, nat)>)

  /** The constructor: the grid and ants are given, and the history starts with
      the score of the initial grid. */
  function Init<G, A>(grid: G, ants: seq<A>, numSteps: nat, metric: G -> real): (s: Sim<G, A>)
    ensures FinalQuality(s) == metric(grid)
    ensures QualityHistory(s) == [metric(grid)]
  {
    Sim(grid, ants, numSteps, [metric(grid)])
  }

  /** `get_final_quality`: the latest recorded score, 0.0 before any. */
  function FinalQuality<G, A>(s: Sim<G, A>): (q: real)
    ensures s.history == [] ==> q == 0.0
    ensures s.history != [] ==> q == s.history[|s.history| - 1]
  {
    if s.history == [] then 0.0 else s.history[|s.history| - 1]
  }

  /** `get_quality_history`: the recorded scores (a copy in the original; values
      here). Its last entry is the final quality, and recording one more score
      makes that score the final quality. */
  function QualityHistory<G, A>(s: Sim<G, A>): (h: seq<real>)
    ensures h != [] ==> h[|h| - 1] == FinalQuality(s)
    ensures h == [] ==> FinalQuality(s) == 0.0
    ensures forall x :: FinalQuality(s.(history := h + [x])) == x
  {
    s.history
  }

  // ---------------------------------------------------------------------------
  // One tick: every ant in order.

  /** The ants of one tick act in list order, each on the grid its predecessor left;
      ant i consumes rs[i]. */
  function Activate<G, A, R>(step: (G, A, R) -> (G, A), grid: G, ants: seq<A>, rs: seq<R>): (res: (G, seq<A>))
    requires |rs| == |ants|
    ensures |res.1| == |ants|
    decreases |ants|
  {
    if ants == [] then (grid, [])
    else
      var (g1, a1) := step(grid, ants[0], rs[0]);
      var (g2, rest) := Activate(step, g1, ants[1..], rs[1..]);
      (g2, [a1] + rest)
  }

  /** A tick over two groups of ants is the tick over the first group followed by
      the tick over the second, starting from the grid the first left. */
  lemma {:induction false} ActivateSplit<G, A, R>(step: (G, A, R) -> (G, A), grid: G,
                                                  ants: seq<A>, rs: seq<R>, more: seq<A>, rs': seq<R>)
    requires |rs| == |ants| && |rs'| == |more|
    ensures var (g1, b1) := Activate(step, grid, ants, rs);
            var (g2, b2) := Activate(step, g1, more, rs');
            Activate(step, grid, ants + more, rs + rs') == (g2, b1 + b2)
    decreases |ants|
  {
    if ants == [] {
      assert rs == [];
      assert ants + more == more && rs + rs' == rs';
      assert Activate(step, grid, ants, rs) == (grid, []);
      assert [] + Activate(step, grid, more, rs').1 == Activate(step, grid, more, rs').1;
    } else {
      var (g1, a1) := step(grid, ants[0], rs[0]);
      assert (ants + more)[1..] == ants[1..] + more;
      assert (rs + rs')[1..] == rs[1..] + rs';
      ActivateSplit(step, g1, ants[1..], rs[1..], more, rs');
      var (h1, c1) := Activate(step, g1, ants[1..], rs[1..]);
      var (h2, c2) := Activate(step, h1, more, rs');
      assert Activate(step, grid, ants, rs) == (h1, [a1] + c1);
      assert Activate(step, grid, ants + more, rs + rs') == (h2, [a1] + (c1 + c2));
      assert [a1] + (c1 + c2) == ([a1] + c1) + c2;
    }
  }

  // ---------------------------------------------------------------------------
  // Ticks, tracking and the callback as functions of the tick count.

  predicate RandomnessFits<R>(rand: seq<seq<R>>, numSteps: nat, numAnts: nat) {
    |rand| == numSteps && forall t :: 0 <= t < |rand| ==> |rand[t]| == numAnts
  }

  /** The grid and ants after the first t ticks. */
  function After<G, A, R>(step: (G, A, R) -> (G, A), grid: G, ants: seq<A>, rand: seq<seq<R>>, t: nat): (res: (G, seq<A>))
    requires t <= |rand| && forall k :: 0 <= k < |rand| ==> |rand[k]| == |ants|
    ensures |res.1| == |ants|
  {
    if t == 0 then (grid, ants)
    else
      var (g, as_) := After(step, grid, ants, rand, t - 1);
      Activate(step, g, as_, rand[t - 1])
  }

  /** Tick t (counted from 0) records the score: every `interval`-th tick and the
      last one. The test `(t + 1) % interval == 0` holds exactly when the interval
      divides t + 1, for either sign of the interval. */
  predicate Tracked(t: nat, numSteps: nat, interval: int)
    requires interval != 0
  {
    (t + 1) % interval == 0 || t == numSteps - 1
  }

  /** The scores recorded during the first t ticks. */
  function Recorded<G, A, R>(step: (G, A, R) -> (G, A), metric: G -> real, grid: G, ants: seq<A>,
                             rand: seq<seq<R>>, interval: int, t: nat): (rec: seq<real>)
    requires interval != 0 && t <= |rand| && forall k :: 0 <= k < |rand| ==> |rand[k]| == |ants|
  {
    if t == 0 then []
    else
      Recorded(step, metric, grid, ants, rand, interval, t - 1)
      + (if Tracked(t - 1, |rand|, interval) then [metric(After(step, grid, ants, rand, t).0)] else [])
  }

  /** The callback's calls during the first t ticks: tick t - 1 reports step t. */
  function Calls<G, A, R>(step: (G, A, R) -> (G, A), metric: G -> real, grid: G, ants: seq<A>,
                          rand: seq<seq<R>>, t: nat): (calls: seq<Event<G, A>>)
    requires t <= |rand| && forall k :: 0 <= k < |rand| ==> |rand[k]| == |ants|
    ensures |calls| == t
    ensures forall k :: 0 <= k < t ==>
              var (g, as_) := After(step, grid, ants, rand, k + 1);
              calls[k] == Event(k + 1, g, metric(g), as_)
  {
    if t == 0 then []
    else
      var (g, as_) := After(step, grid, ants, rand, t);
      Calls(step, metric, grid, ants, rand, t - 1) + [Event(t, g, metric(g), as_)]
  }

  // ---------------------------------------------------------------------------
  // The run loop.

  /** `run`: numSteps ticks; each applies every ant once, computes the score,
      records it on tracked ticks and reports it to the callback when there is
      one. A zero interval fails on the first tick's modulo. */
  method Run<G, A, R>(sim: Sim<G, A>, trackInterval: int, step: (G, A, R) -> (G, A), metric: G -> real,
                      withCallback: bool, rand: seq<seq<R>>)
    returns (res: Result<Outcome<G, A>, RunError>)
    requires RandomnessFits(rand, sim.numSteps, |sim.ants|)
    ensures res.Failure? <==> sim.numSteps > 0 && trackInterval == 0
    ensures res.Success? ==>
              var final := After(step, sim.grid, sim.ants, rand, sim.numSteps);
              && res.value.sim.grid == final.0
              && res.value.sim.ants == final.1
              && res.value.sim.numSteps == sim.numSteps
              && (sim.numSteps > 0 ==>
                    res.value.sim.history
                    == sim.history + Recorded(step, metric, sim.grid, sim.ants, rand, trackInterval, sim.numSteps))
              && (sim.numSteps == 0 ==> res.value.sim.history == sim.history)
              && res.value.calls
                    == (if withCallback then Calls(step, metric, sim.grid, sim.ants, rand, sim.numSteps) else [])
              && |res.value.activations| == sim.numSteps * |sim.ants|
              && forall k :: 0 <= k < |res.value.activations| ==>
                   res.value.activations[k] == (k / |sim.ants|, k % |sim.ants|)
  {
    if sim.numSteps > 0 && trackInterval == 0 {
      return Failure(ZeroTrackInterval);
    }
    var grid := sim.grid;
    var ants := sim.ants;
    var history := sim.history;
    var calls: seq<Event<G, A>> := [];
    var activations: seq<(nat, nat)> := [];
    var n := |sim.ants|;
    var t := 0;
    while t < sim.numSteps
      invariant 0 <= t <= sim.numSteps
      invariant (grid, ants) == After(step, sim.grid, sim.ants, rand, t)
      invariant sim.numSteps > 0 ==>
                  history == sim.history + Recorded(step, metric, sim.grid, sim.ants, rand, trackInterval, t)
      invariant sim.numSteps == 0 ==> history == sim.history
      invariant calls == if withCallback then Calls(step, metric, sim.grid, sim.ants, rand, t) else []
      invariant |activations| == t * n
      invariant forall k :: 0 <= k < |activations| ==> activations[k] == (k / n, k % n)
    {
      var order;
      grid, ants, order := Tick(step, grid, ants, rand[t], t);
      ActivationsExtend(activations, order, t, n);
      activations := activations + order;
      var quality := metric(grid);
      if (t + 1) % trackInterval == 0 || t == sim.numSteps - 1 {
        history := history + [quality];
      }
      if withCallback {
        calls := calls + [Event(t + 1, grid, quality, ants)];
      }
      t := t + 1;
    }
    return Success(Outcome(Sim(grid, ants, sim.numSteps, history), calls, activations));
  }

  /** The inner loop of a tick: `for ant in self.ants: ant.step()`. */
  method Tick<G, A, R>(step: (G, A, R) -> (G, A), grid: G, ants: seq<A>, rs: seq<R>, tick: nat)
    returns (grid': G, ants': seq<A>, order: seq<(nat, nat)>)
    requires |rs| == |ants|
    ensures (grid', ants') == Activate(step, grid, ants, rs)
    ensures |order| == |ants| && forall i :: 0 <= i < |ants| ==> order[i] == (tick, i)
  {
    grid' := grid;
    ants' := ants;
    order := [];
    var i := 0;
    assert ants[0..] == ants && rs[0..] == rs && ants'[..0] == [];
    while i < |ants|
      invariant 0 <= i <= |ants| && |ants'| == |ants|
      invariant |order| == i && forall j :: 0 <= j < i ==> order[j] == (tick, j)
      invariant ants'[i..] == ants[i..]
      invariant Activate(step, grid', ants[i..], rs[i..]).0 == Activate(step, grid, ants, rs).0
      invariant ants'[..i] + Activate(step, grid', ants[i..], rs[i..]).1 == Activate(step, grid, ants, rs).1
    {
      assert ants'[i] == ants[i] by {
        assert ants'[i..][0] == ants[i..][0];
      }
      var (g1, a1) := step(grid', ants'[i], rs[i]);
      ActivateOne(step, grid', ants, rs, i);
      var rest := Activate(step, g1, ants[i + 1..], rs[i + 1..]);
      assert ants'[..i] + ([a1] + rest.1) == ants'[i := a1][..i + 1] + rest.1;
      assert ants'[i := a1][i + 1..] == ants'[i + 1..];
      grid' := g1;
      ants' := ants'[i := a1];
      order := order + [(tick, i)];
      i := i + 1;
    }
    assert ants[|ants|..] == [] && rs[|rs|..] == [];
    assert Activate(step, grid', [], []) == (grid', []);
    assert ants'[..|ants|] + [] == ants';
  }

  /** Activating the ants from index i on steps ant i first and then the rest. */
  lemma ActivateOne<G, A, R>(step: (G, A, R) -> (G, A), grid: G, ants: seq<A>, rs: seq<R>, i: nat)
    requires |rs| == |ants| && i < |ants|
    ensures var (g1, a1) := step(grid, ants[i], rs[i]);
            var rest := Activate(step, g1, ants[i + 1..], rs[i + 1..]);
            Activate(step, grid, ants[i..], rs[i..]) == (rest.0, [a1] + rest.1)
  {
    assert ants[i..][1..] == ants[i + 1..] && rs[i..][1..] == rs[i + 1..];
  }

  /** Appending tick t's activations keeps entry k equal to (k / n, k % n). */
  lemma ActivationsExtend(activations: seq<(nat, nat)>, order: seq<(nat, nat)>, t: nat, n: nat)
    requires |activations| == t * n
    requires forall k :: 0 <= k < |activations| ==> activations[k] == (k / n, k % n)
    requires |order| == n && forall i :: 0 <= i < n ==> order[i] == (t, i)
    ensures |activations + order| == (t + 1) * n
    ensures forall k :: 0 <= k < |activations + order| ==> (activations + order)[k] == (k / n, k % n)
  {
    assert (t + 1) * n == t * n + n;
    forall k | t * n <= k < (t + 1) * n
      ensures (activations + order)[k] == (k / n, k % n)
    {
      DivUnique(k, n, t, k - t * n);
    }
  }

  // ---------------------------------------------------------------------------
  // Properties of the recorded history.

  /** Number of ticks among the first t that record a score. */
  function TrackedCount(t: nat, numSteps: nat, interval: int): nat
    requires interval != 0
  {
    if t == 0 then 0
    else TrackedCount(t - 1, numSteps, interval) + (if Tracked(t - 1, numSteps, interval) then 1 else 0)
  }

  lemma {:induction false} RecordedLength<G, A, R>(step: (G, A, R) -> (G, A), metric: G -> real, grid: G,
                                                   ants: seq<A>, rand: seq<seq<R>>, interval: int, t: nat)
    requires interval != 0 && t <= |rand| && forall k :: 0 <= k < |rand| ==> |rand[k]| == |ants|
    ensures |Recorded(step, metric, grid, ants, rand, interval, t)| == TrackedCount(t, |rand|, interval)
  {
    if t > 0 {
      RecordedLength(step, metric, grid, ants, rand, interval, t - 1);
    }
  }

  /** Division facts for one more tick: t + 1 reaches the next multiple of d exactly
      when the quotient goes up. */
  lemma DivStep(t: nat, d: nat)
    requires d > 0
    ensures (t + 1) / d == t / d + (if (t + 1) % d == 0 then 1 else 0)
  {
    var q, r := t / d, t % d;
    assert t == q * d + r && 0 <= r < d;
    if r == d - 1 {
      assert t + 1 == (q + 1) * d;
      DivUnique(t + 1, d, q + 1, 0);
    } else {
      assert t + 1 == q * d + (r + 1);
      DivUnique(t + 1, d, q, r + 1);
    }
  }

  /** Quotient and remainder are determined by n = q * d + r with 0 <= r < d. */
  lemma DivUnique(n: int, d: int, q: int, r: int)
    requires d > 0 && n == q * d + r && 0 <= r < d
    ensures n / d == q && n % d == r
  {
    var k := q - n / d;
    assert k * d == n % d - r;
    MulSign(k, d);
  }

  lemma MulSign(k: int, d: int)
    requires d > 0
    ensures k >= 1 ==> k * d >= d
    ensures k <= -1 ==> k * d <= -d
  {
  }

  /** Either sign of the interval tests the same divisibility. */
  lemma ModSign(n: int, d: int)
    requires d != 0
    ensures n % d == 0 <==> n % Abs(d) == 0
  {
    if d < 0 {
      DivUnique(n, -d, -(n / d), n % d);
    }
  }

  /** Before the last tick the tracked ticks are the multiples of |interval|. */
  lemma {:induction false} TrackedBeforeLast(t: nat, numSteps: nat, interval: int)
    requires interval != 0 && t < numSteps
    ensures TrackedCount(t, numSteps, interval) == t / Abs(interval)
  {
    if t > 0 {
      TrackedBeforeLast(t - 1, numSteps, interval);
      ModSign(t, interval);
      DivStep(t - 1, Abs(interval));
    }
  }

  /** A run of T > 0 ticks records ceil(T / |interval|) scores: one per full interval
      and one more for the last tick unless it already ends an interval. */
  lemma TrackedTotal(numSteps: nat, interval: int)
    requires interval != 0 && numSteps > 0
    ensures TrackedCount(numSteps, numSteps, interval) == (numSteps - 1) / Abs(interval) + 1
    ensures numSteps % Abs(interval) == 0 ==> TrackedCount(numSteps, numSteps, interval) == numSteps / Abs(interval)
  {
    TrackedBeforeLast(numSteps - 1, numSteps, interval);
    DivStep(numSteps - 1, Abs(interval));
  }

  /** The last recorded score is the score of the final grid. */
  lemma RecordedEndsWithFinal<G, A, R>(step: (G, A, R) -> (G, A), metric: G -> real, grid: G,
                                       ants: seq<A>, rand: seq<seq<R>>, interval: int)
    requires interval != 0 && |rand| > 0 && forall k :: 0 <= k < |rand| ==> |rand[k]| == |ants|
    ensures var rec := Recorded(step, metric, grid, ants, rand, interval, |rand|);
            rec != [] && rec[|rec| - 1] == metric(After(step, grid, ants, rand, |rand|).0)
  {
  }

  /** With an interval of 1 every tick records the score of the grid it left. */
  lemma {:induction false} EveryTickRecorded<G, A, R>(step: (G, A, R) -> (G, A), metric: G -> real, grid: G,
                                                      ants: seq<A>, rand: seq<seq<R>>, t: nat)
    requires t <= |rand| && forall k :: 0 <= k < |rand| ==> |rand[k]| == |ants|
    ensures var rec := Recorded(step, metric, grid, ants, rand, 1, t);
            |rec| == t && forall k :: 0 <= k < t ==> rec[k] == metric(After(step, grid, ants, rand, k + 1).0)
  {
    if t > 0 {
      EveryTickRecorded(step, metric, grid, ants, rand, t - 1);
    }
  }

  /** After construction and a successful run of T > 0 ticks, the history starts
      with the initial score, holds ceil(T / |interval|) more entries, and the final
      quality is the score of the final grid. */
  method RunFromInit<G, A, R>(grid: G, ants: seq<A>, numSteps: nat, trackInterval: int,
                              step: (G, A, R) -> (G, A), metric: G -> real, rand: seq<seq<R>>)
    returns (res: Result<Outcome<G, A>, RunError>)
    requires RandomnessFits(rand, numSteps, |ants|) && trackInterval != 0 && numSteps > 0
    ensures res.Success?
    ensures var h := QualityHistory(res.value.sim);
            && |h| == 1 + (numSteps - 1) / Abs(trackInterval) + 1
            && h[0] == metric(grid)
            && FinalQuality(res.value.sim) == metric(After(step, grid, ants, rand, numSteps).0)
  {
    var sim := Init(grid, ants, numSteps, metric);
    res := Run(sim, trackInterval, step, metric, false, rand);
    RecordedLength(step, metric, grid, ants, rand, trackInterval, numSteps);
    TrackedTotal(numSteps, trackInterval);
    RecordedEndsWithFinal(step, metric, grid, ants, rand, trackInterval);
  }
}
