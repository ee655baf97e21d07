# Ant clustering engine: a Dafny model

This project models the engine of a Deneubourg-style ant-clustering simulation and
proves properties of the model. The engine has four parts:

- **Grid world** (`objects/grid.py`, module `GridInit` for construction and module
  `Grid` for the rest). This is a bounded H x W matrix: 0 marks an empty cell and
  1..K mark coloured objects. `get` returns 0 outside the grid and `set` does
  nothing there. The grid also keeps an index of its empty cells and offers the
  8-neighbourhood of a cell and the local similarity of a colour there.
  Construction does three things:
  - it computes n = int(H·W·p/100) objects;
  - it splits them over the K colours, with the lower colours taking the remainder;
  - it writes them, colour by colour, into a shuffled list of all coordinates.
- **Rule-based ant** (`objects/ant.py`, module `Ants`). One step reads the cell
  value once. It then applies the pick rule with probability (k1/(k1+s))² and the
  drop rule with probability (s/(k2+s))², both to that value. Finally it moves to a
  random in-bounds cell among the 8 surrounding ones.
- **Clustering score** (`helpers/metrics.py`, module `Metrics`). The score counts,
  for each object, whether its right neighbour and its lower neighbour hold the same
  colour. It divides that count by the number of objects, and gives 0.0 on a grid
  with no objects.
- **Simulation runner** (`objects/simulation.py`, module `Simulation`). The runner
  keeps a history of scores, starting with the score of the initial grid. Each
  tick, every ant steps once, in list order. The score is then recorded every
  `track_interval` ticks and on the last tick, and an optional callback sees every
  tick.

Randomness is an explicit input of the model:
- the shuffle is a permutation `order` of the coordinates;
- `random.random()` is a `draw` in [0, 1);
- `random.choice(valid_moves)` is an index `choice` into the valid moves;
- `random.randint` is a start coordinate with the same bounds.

Similarities and probabilities are Dafny `real`s. `int(...)` is truncation toward
zero (`GridInit.Truncate`).

The model resolves the source's wiring as follows:
- `grid.py` stores the matrix as `grid`, while `ant.py` and `metrics.py` read
  `grid.cells`. The model has one matrix, `GridWorld.cells`.
- `simulation.py` builds base `Ant(self.grid)` objects. These have no `step` and do
  not match the base constructor's `(x, y)` signature. It also imports a
  `calculate_clustering_quality` that `metrics.py` does not define. So
  `Simulation` is generic: the ant step and the score are parameters.
- Module `Colony` instantiates the runner with the corrected ant step and the
  clustering score.

The code is followed where the prose around it says otherwise:
- The score's docstring promises a value between 0.0 and 1.0. The code divides
  pairs by objects, which gives values in [0, 2). A full 3 x 3 grid of one colour
  scores 12/9 (`Metrics.ScoreCanExceedOne`).
- The tracking interval is described as positive. The code accepts any non-zero
  interval, since `%` tests divisibility for either sign. A zero interval raises
  on the first tick, and the model returns `Failure(ZeroTrackInterval)` there.
- Counted from construction, a run of T > 0 ticks leaves 1 + ceil(T/|I|) entries
  in the history. For T = 2000 and I = 100 that is 21 entries.

Nothing in the model is executed; every row of the Model table states a proved contract.

## Model

| member | source | states |
|---|---|---|
| GridInit.Construct | objects/grid.py:21-62 | A negative dimension fails with `NegativeDimension` (numpy rejects the shape), and otherwise K = 0 fails with `ZeroColors` (the division by K). Every other input succeeds, and the grid it builds has three properties. First, the first min(n, H·W) shuffled coordinates hold the colour-major write sequence and every other cell is 0. Second, the index of empty cells equals the set of zero cells. Third, the count of each value agrees with that placement. |
| GridInit.PlaceColour | objects/grid.py:50-55 | The inner placement loop writes `count` copies of one colour at the next shuffled coordinates. It stops writing once the coordinates run out, and a negative count writes nothing. |
| GridInit.ConstructionCounts | objects/grid.py:36-55 | For 0 <= p <= 100 and K > 0, construction gives n = floor(H·W·p/100) objects and H·W − n empty cells. Colour c gets n div K plus 1 if c <= n mod K, and values outside 0..K never occur. |
| GridInit.EvenSplit | objects/grid.py:40-42 | The per-colour counts never increase with the colour and differ by at most 1, so the lower colours take the remainder. |
| GridInit.ObjectCountFits | objects/grid.py:37-38 | For 0 <= p <= 100, `int(H*W*p/100.0)` is the floor of H·W·p/100 and lies between 0 and H·W. |
| GridInit.ColourSequenceFacts | objects/grid.py:49-51 | The colours written, in write order, lie in 1..K and never decrease. Colour c occurs exactly as often as its count says, and for n >= 0 there are exactly n of them. |
| GridInit.PlaceStep | objects/grid.py:52-55 | The next shuffled coordinate is still empty, because the shuffle has no repeats. So each write adds exactly one object of its colour and overwrites nothing. |
| GridInit.NegativeColoursLeaveEmpty | objects/grid.py:49 | With K < 0 the colour loop does not run and every cell stays empty. |
| GridInit.OverfullLeavesNoEmptyCell | objects/grid.py:51-55 | With p >= 100 the guard on the position index stops placement when the coordinates run out, and no cell is left empty. |
| Grid.InBounds | objects/grid.py:64-66 | On a shaped grid, a coordinate is in bounds exactly when it indexes the matrix (0 <= row < number of rows, 0 <= col < length of that row). |
| Grid.Get | objects/grid.py:79-81 | Outside the grid the value is 0; inside it is the stored value. |
| Grid.IsEmpty | objects/grid.py:103-105 | Every coordinate outside the grid is empty. While the index of empty cells is exact, an in-bounds cell is empty exactly when the index lists it. |
| Grid.Set | objects/grid.py:92-101 | Outside the grid nothing changes. Inside, the cell takes the value and every other cell keeps its value. The index of empty cells stays equal to the set of zero cells, covering the cases where the cell is emptied, filled or rewritten. |
| Grid.SetThenGet | objects/grid.py:94-95 | Reading a cell after an in-bounds `set` returns the value just stored. |
| Grid.SetKeepsColoursInRange | objects/grid.py:90-95 | Storing 0 or a colour in 1..K keeps every cell within 0..K. |
| Grid.CountValueWrite | objects/grid.py:95 | Overwriting one cell changes the count of a value by whether it left and whether it arrived. |
| Grid.NeighborsWithin | objects/grid.py:121-131 | Every neighbour returned is inside the grid and is not the centre. It is within the radius in both coordinates, carries the stored value, and appears once. |
| Grid.NeighborsComplete | objects/grid.py:121-131 | Conversely, every in-bounds cell within the radius other than the centre is returned, for every radius. |
| Grid.NeighborsCount | objects/grid.py:121-131 | For every radius, the number of neighbours is the product of the in-bounds spans in rows and columns, minus the centre when it is inside the grid. |
| Grid.CornerEdgeInterior | objects/grid.py:111 | On a grid of at least 2 x 2, a corner cell has 3 neighbours, an edge cell 5 and an interior cell 8. |
| Grid.SingleCellHasNoNeighbors | objects/grid.py:145-147 | A 1 x 1 grid has no neighbours, so its similarity is 0.0. |
| Grid.LocalSimilarity | objects/grid.py:145-150 | The similarity lies in [0, 1] and is 0 without neighbours. |
| Grid.SimilarityOf | objects/grid.py:145-150 | The fraction lies in [0, 1] and is 0 for an empty neighbour list. Multiplied by the list's length, empty cells included, it gives the number of neighbours of that colour. |
| Grid.SimilarityExtremes | objects/grid.py:145-150 | The similarity is 1 exactly when there are neighbours and all hold the colour. It is 0 exactly when none does. |
| Ants.NewAnt | objects/ant.py:56-74 | Each coordinate is treated on its own: a given start coordinate is used as is, and a missing x (resp. y) is the random input, which lies in 0..W−1 (resp. 0..H−1). The ant starts empty-handed with the given thresholds. |
| Ants.PickProbability | objects/ant.py:99 | For k1 > 0 and a similarity >= 0, the pick probability lies in (0, 1]. At similarity 0 it is 1, so every draw in [0, 1) picks. |
| Ants.PickFalls | objects/ant.py:99-102 | For k1 > 0 the pick probability falls strictly as the similarity rises. |
| Ants.DropProbability | objects/ant.py:117 | For k2 > 0 and a similarity >= 0, the drop probability lies in [0, 1). It is 0 exactly at similarity 0, so no draw drops there. |
| Ants.DropRises | objects/ant.py:117-120 | For k2 > 0 the drop probability rises strictly with the similarity. |
| Ants.PickRule | objects/ant.py:95-104 | If the pick fires, the ant carries the observed value and 0 is stored at row y, column x. Otherwise nothing changes. |
| Ants.DropRule | objects/ant.py:115-122 | If the drop fires, the carried colour is stored at row y, column x and the ant's hands are empty. Otherwise nothing changes. |
| Ants.PickDropExclusive | objects/ant.py:81-83 | Pick needs empty hands and a non-zero observed value, and drop needs a load and a zero value. So the two rules never both fire on one observed value. |
| Ants.DirectionsAreKingMoves | objects/ant.py:45-54 | `DIRECTIONS` has 8 entries, no repeats, and holds exactly the offsets with both components in −1..1 other than (0, 0). |
| Ants.ValidFrom | objects/ant.py:129-136 | Every valid move is one of the 8 directions and lands inside the grid. |
| Ants.ValidFromComplete | objects/ant.py:131-136 | Every direction that lands inside the grid is among the valid moves. |
| Ants.Move | objects/ant.py:138-141 | The ant moves exactly when some move is valid, by one of the 8 directions and to a cell inside the grid. Its load and thresholds are unchanged. |
| Ants.MoveStaysOnGrid | objects/ant.py:129-141 | An ant inside the grid is still inside after moving. |
| Ants.MovesAvailable | objects/ant.py:138-141 | On a 1 x 1 grid no move is valid. On a grid of at least 2 x 2 some move is always valid. |
| Ants.Step | objects/ant.py:76-84 | A step keeps the grid's shape and the ant inside it, keeps the thresholds, and never touches the index of empty cells. |
| Ants.StepEffect | objects/ant.py:76-84 | The value is observed at row x, column y. A pick stores 0 at row y, column x and loads the observed value. A drop stores the load there and empties the hands. When neither fires, the grid and load are unchanged. |
| Ants.StepKeepsOthers | objects/ant.py:95-122 | No cell other than row y, column x changes. |
| Ants.StepMoves | objects/ant.py:84 | The ant ends where `Move` takes it from its old position on the old grid, since the rules do not move it. |
| Ants.StepConservesOnDiagonal | objects/ant.py:81-121 | When x = y, the observed cell and the written cell coincide, and a step keeps, for every colour, the objects on the grid plus the one carried. |
| Ants.PickCopies | objects/ant.py:81-104 | If an empty-handed ant observes an object at row x, column y while row y, column x is already empty, a firing pick leaves the grid as it was and loads the ant. The inventory of that colour grows by one. |
| Ants.OffDiagonalPickDuplicates | objects/ant.py:81-104 | On the 2 x 2 grid with one object at row 0, column 1, an empty-handed ant at x = 0, y = 1 with draw 0 meets every premise of `PickCopies`. The colour's inventory is 1 before the step and 2 after it. |
| Ants.PickStalesIndex | objects/ant.py:104 | If a pick empties a cell that held an object, the cell is empty but missing from the index of empty cells. So the grid no longer satisfies its invariant. |
| Ants.PickStalesEmptyIndex | objects/ant.py:104 | On the 1 x 1 grid holding one object, the pick fires and the resulting grid is not valid. |
| AntFixed.StepFixed | objects/ant.py:76-122 | The corrected step observes and writes the same cell (row y, column x) and stores through `set`. It keeps the index of empty cells exact and changes only that cell. A pick or drop has the same effect as in `Ants.Step`. |
| AntFixed.StepFixedConserves | objects/ant.py:81-122 | The corrected step keeps, for every colour, the objects on the grid plus the one carried. |
| Metrics.ClusteringScore | helpers/metrics.py:19-42 | The score is 0.0 on a grid without objects. Otherwise, multiplied by the number of objects, it gives the number of matching right and lower neighbour pairs. |
| Metrics.ItemsAreObjects | helpers/metrics.py:23-28 | `total_items` is H·W minus the number of empty cells. |
| Metrics.RowPairsSplit | helpers/metrics.py:30-35 | The pairs a row contributes are its right matches plus its down matches. |
| Metrics.PairsBelowTwicePerItem | helpers/metrics.py:30-38 | Without objects there are no pairs. With objects there are fewer than twice as many pairs as objects. |
| Metrics.ScoreBounds | helpers/metrics.py:19-42 | The score always lies in [0, 2). |
| Metrics.NoPairsIffScattered | helpers/metrics.py:30-35 | The scan counts no pair exactly when no object has an equal right or lower neighbour. |
| Metrics.ScoreZeroIffScattered | helpers/metrics.py:30-42 | The score is 0.0 exactly when no two orthogonally adjacent cells hold the same object. |
| Metrics.UniformPairs | helpers/metrics.py:23-35 | A full H x W grid of one colour has H·W objects and H(W−1) + (H−1)W pairs. |
| Metrics.UniformScoreAboveOne | helpers/metrics.py:17-42 | On a full grid of one colour, the score exceeds 1 exactly when (H−1)(W−1) > 1. |
| Metrics.ScoreCanExceedOne | helpers/metrics.py:17-42 | A full 3 x 3 grid of one colour scores 12/9 > 1, outside the range the docstring states. |
| Simulation.Init | objects/simulation.py:43-45 | Right after construction, the history is exactly the score of the initial grid, and that score is the final quality. |
| Simulation.FinalQuality | objects/simulation.py:75-77 | The final quality is the last entry of the history, or 0.0 when the history is empty. |
| Simulation.QualityHistory | objects/simulation.py:79-81 | The history's last entry is the final quality, and an empty history means a final quality of 0.0. Recording one more score makes that score the final quality. |
| Simulation.Tick | objects/simulation.py:58-59 | One tick applies every ant once, in list order, each on the grid its predecessor left. It reports the activations as (tick, 0), (tick, 1), … |
| Simulation.ActivateSplit | objects/simulation.py:58-59 | Stepping a list of ants is stepping its first part and then its second part from the grid the first part left. |
| Simulation.Run | objects/simulation.py:56-73 | A zero interval with T > 0 fails, and nothing else does. On success, T ticks of ant steps produce the final grid and ants. The old history is kept as a prefix and extended by the scores of the tracked ticks. When a callback is given it receives steps 1..T in order, each with that tick's grid, score and ants, and otherwise it receives nothing. The activations are T·n, entry k being ant k mod n in tick k div n. |
| Simulation.RecordedLength | objects/simulation.py:64-66 | The number of scores appended is the number of tracked ticks. |
| Simulation.TrackedBeforeLast | objects/simulation.py:65 | Among the ticks before the last, exactly t div abs(I) of the first t are tracked. |
| Simulation.ModSign | objects/simulation.py:65 | `(step + 1) % I == 0` tests divisibility by abs(I) for either sign of I. |
| Simulation.TrackedTotal | objects/simulation.py:56-66 | A run of T > 0 ticks records ceil(T/abs(I)) scores, which is exactly T/abs(I) when abs(I) divides T. |
| Simulation.RecordedEndsWithFinal | objects/simulation.py:65-66 | The last tick is always tracked, so the last recorded score is the score of the final grid. |
| Simulation.EveryTickRecorded | objects/simulation.py:64-66 | With interval 1, entry k of the recorded scores is the score after tick k. |
| Simulation.RunFromInit | objects/simulation.py:43-81 | After construction and a run of T > 0 ticks, the history begins with the initial score and has 1 + ceil(T/abs(I)) entries. `get_final_quality` is the score of the final grid. |
| Colony.AntStep | objects/ant.py:76-84 | The corrected step, made total by leaving inputs it does not accept unchanged, keeps a valid grid valid and keeps its dimensions. |
| Colony.TickConserves | objects/simulation.py:58-59 | A tick of corrected ants keeps, for every colour, the objects on the grid plus those carried by all ants. |
| Colony.TickKeepsValid | objects/simulation.py:58-59 | A tick of corrected ants keeps the index of empty cells exact. |
| Colony.RunConserves | objects/simulation.py:56-59 | Any number of ticks conserves every colour and keeps the grid valid. |
| Colony.RunColony | objects/simulation.py:56-77 | A run of the corrected colony with the clustering score conserves every colour and keeps the grid valid. For T > 0 its final quality is the score of the final grid. |

## Left out

- Printing (`verbose`) and all rendering, plotting and command-line handling: they are output only.
- The random number generators. The shuffle, the uniform draws, `random.choice` and `random.randint` are inputs of the model, within the ranges those functions produce.
- Floating point. Similarities, probabilities and scores are exact reals, so rounding near a probability threshold is not modelled. So are `int()` of a non-finite fill percentage and numpy's fixed-width integers.
- The loop in `grid.py` that builds the index of empty cells after construction. The model states its result directly, as the set of zero cells.
- Simulation.Init: the constructor's building of the grid and ants is not repeated inside it. The grid comes from `GridInit.Construct`, and the ants are given, because the source's `Ant(self.grid)` call cannot build a stepping ant.
- Simulation.Run: the number of steps is a natural number. A negative `num_steps` gives an empty `range` and behaves like 0. After the zero-interval failure, the state of the object (the first tick's ant steps already applied) is not modelled.
- Metrics.ClusteringScore: that each adjacent pair is counted once is stated through ownership: a horizontal pair belongs to its left cell and a vertical pair to its upper cell. It is not stated as the size of a set of pairs.
- Purity of the score: it is a function of the grid value, so it cannot change the grid and gives equal results on equal grids. No separate lemma states this.
- `get_quality_history` returns a copy. Histories here are values, so the copy is the history itself.

## Findings

| source | as written | input that shows it | evidently intended | confidence | as-written member | corrected member |
|---|---|---|---|---|---|---|
| objects/ant.py:81 | The cell is observed with `get(self.x, self.y)` (row x, column y), but the rules write `cells[self.y, self.x]` (row y, column x), so a pick copies an object instead of moving it. | 2 x 2 grid `[[0, 1], [0, 0]]`, empty-handed ant at x = 0, y = 1, k1 = k2 = 1, draw 0.0: the grid keeps its object and the ant carries a second one (`Ants.OffDiagonalPickDuplicates` shows the inventory of colour 1 going from 1 to 2). | Observe and write the same cell, so objects are conserved, as the "remove item from grid" comment implies. | high; not executed | Ants.PickCopies | AntFixed.StepFixedConserves |
| objects/ant.py:104 | The rules store into the matrix directly and bypass `GridWorld.set`, so the index of empty cells is not updated. | 1 x 1 grid `[[1]]` with an empty index, ant at (0, 0), k1 = k2 = 1, draw 0.0: after the pick the cell is 0 but the index is still empty (`Ants.PickStalesEmptyIndex`). | Store through `set`, which keeps the index equal to the set of empty cells. | high; not executed | Ants.PickStalesIndex | AntFixed.StepFixed |
