/** The global clustering score: adjacent pairs of equal objects (each object looks
    at its right and its lower neighbour) divided by the number of objects, 0 on a
    grid with no objects. The scan mirrors the row-major double loop. */
module Metrics {
  import opened Grid
  import opened Arith

  /** What the scan accumulates: objects seen and matching pairs counted. */
  datatype Tally = Tally(items: nat, pairs: nat)

  function Add(t: Tally, u: Tally): Tally {
    Tally(t.items + u.items, t.pairs + u.pairs)
  }

  predicate Cell(g: GridWorld, y: int, x: int) {
    Shaped(g) && 0 <= y < g.height && 0 <= x < g.width
  }

  function ItemAt(g: GridWorld, y: int, x: int): nat
    requires Cell(g, y, x)
  {
    if g.cells[y][x] == 0 then 0 else 1
  }

  /** The object at (y, x) has a right neighbour holding the same value. */
  predicate RightMatch(g: GridWorld, y: int, x: int)
    requires Cell(g, y, x)
  {
    g.cells[y][x] != 0 && x + 1 < g.width && g.cells[y][x + 1] == g.cells[y][x]
  }

  /** The object at (y, x) has a lower neighbour holding the same value. */
  predicate DownMatch(g: GridWorld, y: int, x: int)
    requires Cell(g, y, x)
  {
    g.cells[y][x] != 0 && y + 1 < g.height && g.cells[y + 1][x] == g.cells[y][x]
  }

  function Indicator(b: bool): nat {
    if b then 1 else 0
  }

  /** The body of the inner loop at (y, x): an empty cell adds nothing. */
  function CellTally(g: GridWorld, y: int, x: int): Tally
    requires Cell(g, y, x)
  {
    Tally(ItemAt(g, y, x), Indicator(RightMatch(g, y, x)) + Indicator(DownMatch(g, y, x)))
  }

  /** The inner loop over columns x .. width - 1 of row y. */
  function RowTally(g: GridWorld, y: int, x: int): Tally
    requires Shaped(g) && 0 <= y < g.height && 0 <= x <= g.width
    decreases g.width - x
  {
    if x == g.width then Tally(0, 0) else Add(CellTally(g, y, x), RowTally(g, y, x + 1))
  }

  /** The outer loop over rows y .. height - 1. */
  function GridTally(g: GridWorld, y: int): Tally
    requires Shaped(g) && 0 <= y <= g.height
    decreases g.height - y
  {
    if y == g.height then Tally(0, 0) else Add(RowTally(g, y, 0), GridTally(g, y + 1))
  }

  function Tallied(g: GridWorld): Tally
    requires Shaped(g)
  {
    GridTally(g, 0)
  }

  /** `calculate_clustering_score`: pairs per object, 0.0 when the grid holds none. */
  function ClusteringScore(g: GridWorld): (s: real)
    requires Shaped(g)
    ensures Tallied(g).items == 0 ==> s == 0.0
    ensures s * Tallied(g).items as real == Tallied(g).pairs as real
  {
    PairsBelowTwicePerItem(g);
    Normalized(Tallied(g))
  }

  /** The final division, guarded against a grid without objects. */
  function Normalized(t: Tally): (s: real)
    ensures t.items == 0 ==> s == 0.0
    ensures s * t.items as real == t.pairs as real || t.items == 0
  {
    if t.items == 0 then 0.0
    else Quotient(t.pairs as real, t.items as real); t.pairs as real / t.items as real
  }


  // ---------------------------------------------------------------------------
  // The objects counted are exactly the non-empty cells.

  lemma {:induction false} RowItems(g: GridWorld, y: int, x: int)
    requires Shaped(g) && 0 <= y < g.height && 0 <= x <= g.width
    ensures RowTally(g, y, x).items == (g.width - x) - RowCount(g.cells[y][x..], 0)
    decreases g.width - x
  {
    if x < g.width {
      RowItems(g, y, x + 1);
      assert g.cells[y][x..][1..] == g.cells[y][x + 1..];
    }
  }

  lemma {:induction false} GridItems(g: GridWorld, y: int)
    requires Shaped(g) && 0 <= y <= g.height
    ensures GridTally(g, y).items == (g.height - y) * g.width - CountValue(g.cells[y..], 0)
    decreases g.height - y
  {
    if y < g.height {
      GridItems(g, y + 1);
      RowItems(g, y, 0);
      assert g.cells[y..][1..] == g.cells[y + 1..];
      assert g.cells[y][0..] == g.cells[y];
      assert (g.height - y) * g.width == g.width + (g.height - (y + 1)) * g.width;
    }
  }

  /** `total_items` is the number of cells that are not empty. */
  lemma ItemsAreObjects(g: GridWorld)
    requires Shaped(g)
    ensures Tallied(g).items == g.height * g.width - CountValue(g.cells, 0)
  {
    GridItems(g, 0);
    assert g.cells[0..] == g.cells;
  }

  // ---------------------------------------------------------------------------
  // Bounds: fewer than two pairs per object.

  function RightPairs(g: GridWorld, y: int, x: int): nat
    requires Shaped(g) && 0 <= y < g.height && 0 <= x <= g.width
    decreases g.width - x
  {
    if x == g.width then 0 else Indicator(RightMatch(g, y, x)) + RightPairs(g, y, x + 1)
  }

  function DownPairs(g: GridWorld, y: int, x: int): nat
    requires Shaped(g) && 0 <= y < g.height && 0 <= x <= g.width
    decreases g.width - x
  {
    if x == g.width then 0 else Indicator(DownMatch(g, y, x)) + DownPairs(g, y, x + 1)
  }

  lemma {:induction false} RowPairsSplit(g: GridWorld, y: int, x: int)
    requires Shaped(g) && 0 <= y < g.height && 0 <= x <= g.width
    ensures RowTally(g, y, x).pairs == RightPairs(g, y, x) + DownPairs(g, y, x)
    decreases g.width - x
  {
    if x < g.width {
      RowPairsSplit(g, y, x + 1);
    }
  }

  /** Within a row, each object but the last one has at most one right match. */
  lemma {:induction false} RightBound(g: GridWorld, y: int, x: int)
    requires Shaped(g) && 0 <= y < g.height && 0 <= x <= g.width
    ensures RightPairs(g, y, x) + Indicator(RowTally(g, y, x).items > 0) <= RowTally(g, y, x).items
    decreases g.width - x
  {
    if x < g.width {
      RightBound(g, y, x + 1);
      if RightMatch(g, y, x) {
        assert RowTally(g, y, x + 1).items >= ItemAt(g, y, x + 1) == 1;
      }
    }
  }

  /** A down match needs an object below it in the next row. */
  lemma {:induction false} DownBound(g: GridWorld, y: int, x: int)
    requires Shaped(g) && 0 <= y < g.height && 0 <= x <= g.width
    ensures y + 1 == g.height ==> DownPairs(g, y, x) == 0
    ensures y + 1 < g.height ==> DownPairs(g, y, x) <= RowTally(g, y + 1, x).items
    decreases g.width - x
  {
    if x < g.width {
      DownBound(g, y, x + 1);
    }
  }

  function RowItemsOrZero(g: GridWorld, y: int): nat
    requires Shaped(g) && 0 <= y <= g.height
  {
    if y == g.height then 0 else RowTally(g, y, 0).items
  }

  lemma {:induction false} GridBound(g: GridWorld, y: int)
    requires Shaped(g) && 0 <= y <= g.height
    ensures GridTally(g, y).pairs + RowItemsOrZero(g, y) + Indicator(GridTally(g, y).items > 0)
            <= 2 * GridTally(g, y).items
    decreases g.height - y
  {
    if y < g.height {
      GridBound(g, y + 1);
      RowPairsSplit(g, y, 0);
      RightBound(g, y, 0);
      DownBound(g, y, 0);
    }
  }

  /** Whenever there are objects the pair count stays below twice their number. */
  lemma PairsBelowTwicePerItem(g: GridWorld)
    requires Shaped(g)
    ensures Tallied(g).items == 0 ==> Tallied(g).pairs == 0
    ensures Tallied(g).items > 0 ==> Tallied(g).pairs < 2 * Tallied(g).items
  {
    GridBound(g, 0);
  }

  lemma BelowTwo(p: real, t: real)
    requires 0.0 < t && 0.0 <= p < 2.0 * t
    ensures 0.0 <= p / t < 2.0
  {
    var q := p / t;
    Quotient(p, t);
    assert (2.0 - q) * t == 2.0 * t - p;
    PositiveFactor(2.0 - q, t);
  }

  /** The score lies in [0, 2). */
  lemma ScoreBounds(g: GridWorld)
    requires Shaped(g)
    ensures 0.0 <= ClusteringScore(g) < 2.0
  {
    var t := Tallied(g);
    PairsBelowTwicePerItem(g);
    if t.items > 0 {
      BelowTwo(t.pairs as real, t.items as real);
    }
  }

  // ---------------------------------------------------------------------------
  // A zero score means no two equal objects touch horizontally or vertically.

  predicate NoMatchFrom(g: GridWorld, y: int, x: int)
    requires Shaped(g) && 0 <= y < g.height && 0 <= x <= g.width
  {
    forall x' :: x <= x' < g.width ==> !RightMatch(g, y, x') && !DownMatch(g, y, x')
  }

  /** No object has an equal right or lower neighbour. */
  predicate Scattered(g: GridWorld)
    requires Shaped(g)
  {
    forall y, x :: 0 <= y < g.height && 0 <= x < g.width ==> !RightMatch(g, y, x) && !DownMatch(g, y, x)
  }

  lemma {:induction false} RowNoPairs(g: GridWorld, y: int, x: int)
    requires Shaped(g) && 0 <= y < g.height && 0 <= x <= g.width
    ensures RowTally(g, y, x).pairs == 0 <==> NoMatchFrom(g, y, x)
    decreases g.width - x
  {
    if x < g.width {
      RowNoPairs(g, y, x + 1);
    }
  }

  lemma {:induction false} GridNoPairs(g: GridWorld, y: int)
    requires Shaped(g) && 0 <= y <= g.height
    ensures GridTally(g, y).pairs == 0 <==> forall y' :: y <= y' < g.height ==> NoMatchFrom(g, y', 0)
    decreases g.height - y
  {
    if y < g.height {
      GridNoPairs(g, y + 1);
      RowNoPairs(g, y, 0);
    }
  }

  /** The scan counts no pair exactly when no two equal objects are adjacent. */
  lemma NoPairsIffScattered(g: GridWorld)
    requires Shaped(g)
    ensures Tallied(g).pairs == 0 <==> Scattered(g)
  {
    GridNoPairs(g, 0);
    if Scattered(g) {
      forall y' | 0 <= y' < g.height
        ensures NoMatchFrom(g, y', 0)
      {
      }
    } else {
      var y, x :| 0 <= y < g.height && 0 <= x < g.width && (RightMatch(g, y, x) || DownMatch(g, y, x));
      assert !NoMatchFrom(g, y, 0);
    }
  }

  /** The score is 0 exactly when no two equal objects are adjacent. */
  lemma ScoreZeroIffScattered(g: GridWorld)
    requires Shaped(g)
    ensures ClusteringScore(g) == 0.0 <==> Scattered(g)
  {
    NoPairsIffScattered(g);
    PairsBelowTwicePerItem(g);
  }

  // ---------------------------------------------------------------------------
  // A grid filled with one colour.

  predicate Uniform(g: GridWorld, c: int)
    requires Shaped(g)
  {
    forall y, x :: 0 <= y < g.height && 0 <= x < g.width ==> g.cells[y][x] == c
  }

  lemma {:induction false} UniformRow(g: GridWorld, c: int, y: int, x: int)
    requires Shaped(g) && Uniform(g, c) && c != 0 && 0 <= y < g.height && 0 <= x < g.width
    ensures RowTally(g, y, x).items == g.width - x
    ensures RowTally(g, y, x).pairs
            == (g.width - x - 1) + (if y + 1 < g.height then g.width - x else 0)
    decreases g.width - x
  {
    if x + 1 < g.width {
      UniformRow(g, c, y, x + 1);
    }
  }

  lemma {:induction false} UniformGrid(g: GridWorld, c: int, y: int)
    requires Shaped(g) && Uniform(g, c) && c != 0 && g.width >= 1 && 0 <= y < g.height
    ensures GridTally(g, y).items == (g.height - y) * g.width
    ensures GridTally(g, y).pairs == (g.height - y) * (g.width - 1) + (g.height - y - 1) * g.width
    decreases g.height - y
  {
    UniformRow(g, c, y, 0);
    if y + 1 < g.height {
      UniformGrid(g, c, y + 1);
      assert (g.height - y) * g.width == g.width + (g.height - (y + 1)) * g.width;
      assert (g.height - y) * (g.width - 1) == (g.width - 1) + (g.height - (y + 1)) * (g.width - 1);
      assert (g.height - y - 1) * g.width == g.width + (g.height - (y + 1) - 1) * g.width;
    }
  }

  /** A full H x W grid of one colour has H(W - 1) right pairs and (H - 1)W down pairs. */
  lemma UniformPairs(g: GridWorld, c: int)
    requires Shaped(g) && Uniform(g, c) && c != 0 && g.height >= 1 && g.width >= 1
    ensures Tallied(g).items == g.height * g.width
    ensures Tallied(g).pairs == g.height * (g.width - 1) + (g.height - 1) * g.width
  {
    UniformGrid(g, c, 0);
  }

  /** On a full grid of one colour the score exceeds 1 exactly when
      (H - 1)(W - 1) > 1, that is on every full grid of at least 2 x 3 cells. */
  lemma UniformScoreAboveOne(g: GridWorld, c: int)
    requires Shaped(g) && Uniform(g, c) && c != 0 && g.height >= 1 && g.width >= 1
    ensures ClusteringScore(g) > 1.0 <==> (g.height - 1) * (g.width - 1) > 1
  {
    UniformPairs(g, c);
    UniformExcess(g.height, g.width);
    AboveOneIffMorePairs(g);
  }

  lemma UniformExcess(h: int, w: int)
    ensures (h * (w - 1) + (h - 1) * w) - h * w == (h - 1) * (w - 1) - 1
  {
  }

  /** With objects on the grid, the score exceeds 1 exactly when pairs outnumber objects. */
  lemma AboveOneIffMorePairs(g: GridWorld)
    requires Shaped(g) && Tallied(g).items > 0
    ensures ClusteringScore(g) > 1.0 <==> Tallied(g).pairs > Tallied(g).items
  {
    RatioAboveOne(ClusteringScore(g), Tallied(g).items as real, Tallied(g).pairs as real);
  }

  /** A ratio s = p / t with t > 0 exceeds 1 exactly when p exceeds t. */
  lemma RatioAboveOne(s: real, t: real, p: real)
    requires t > 0.0 && s * t == p
    ensures s > 1.0 <==> p > t
  {
    assert (s - 1.0) * t == p - t;
    if p > t {
      PositiveFactor(s - 1.0, t);
    } else {
      NonPositiveFactor(s - 1.0, t);
    }
  }

  /** The score is not confined to [0, 1]: a full 3 x 3 grid of one colour has 12
      pairs among 9 objects. */
  lemma ScoreCanExceedOne(g: GridWorld, c: int)
    requires Shaped(g) && Uniform(g, c) && c != 0 && g.height == 3 && g.width == 3
    ensures ClusteringScore(g) == 12.0 / 9.0 > 1.0
  {
    UniformPairs(g, c);
    var s := ClusteringScore(g);
    assert s * 9.0 == 12.0;
  }
}
