/** The bounded grid world of objects/grid.py: a height x width matrix of colours
    (0 = empty, 1..K = an object of that colour), clamped reads, no-op writes out of
    bounds, the auxiliary index of empty cells, neighbourhood enumeration without
    wrap-around and the local-similarity ratio the ants sense.

    The source keeps the matrix under two names (`grid` in grid.py, `cells` in the
    ant and the metric); the model has a single matrix, `cells`. */
module Grid {
  import opened Arith

  /** A coordinate: `row` ranges over the height, `col` over the width. */
  datatype Pos = Pos(row: int, col: int)

  /** One entry of the neighbour list: an in-bounds position and the value stored there. */
  datatype Neighbor = Neighbor(pos: Pos, value: int)

  /** The grid world. `emptyCells` is the index of empty coordinates that `set`
      keeps up to date. */
  datatype GridWorld = GridWorld(height: int, width: int, numColors: int,
                                 cells: seq<seq<int>>, emptyCells: set<Pos>)

  /** The matrix has exactly `height` rows of `width` entries each. */
  predicate Shaped(g: GridWorld) {
    && g.height >= 0 && g.width >= 0
    && |g.cells| == g.height
    && forall r :: 0 <= r < g.height ==> |g.cells[r]| == g.width
  }

  /** `is_valid`: the coordinate lies inside the grid (no wrap-around); on a shaped
      grid these are exactly the coordinates that index the matrix. */
  predicate InBounds(g: GridWorld, row: int, col: int): (b: bool)
    ensures Shaped(g) ==> (b <==> 0 <= row < |g.cells| && 0 <= col < |g.cells[row]|)
  {
    0 <= row < g.height && 0 <= col < g.width
  }

  /** The coordinates whose cell holds 0. */
  function EmptyIndex(g: GridWorld): set<Pos>
    requires Shaped(g)
  {
    set r, c | 0 <= r < g.height && 0 <= c < g.width && g.cells[r][c] == 0 :: Pos(r, c)
  }

  /** A well-formed grid whose index of empty cells is exact. */
  predicate Valid(g: GridWorld) {
    Shaped(g) && g.emptyCells == EmptyIndex(g)
  }

  /** Every stored value is empty or one of the K colours. */
  predicate ColoursInRange(g: GridWorld)
    requires Shaped(g)
  {
    forall r, c :: 0 <= r < g.height && 0 <= c < g.width ==> 0 <= g.cells[r][c] <= g.numColors
  }

  /** `get`: the stored value, or 0 (no object) outside the grid. */
  function Get(g: GridWorld, row: int, col: int): (v: int)
    requires Shaped(g)
    ensures !InBounds(g, row, col) ==> v == 0
    ensures InBounds(g, row, col) ==> v == g.cells[row][col]
  {
    if !InBounds(g, row, col) then 0 else g.cells[row][col]
  }

  /** `is_empty`: the cell reads as 0; every coordinate outside the grid is empty.
      While the index of empty cells is exact, an in-bounds cell is empty exactly
      when the index lists it. */
  predicate IsEmpty(g: GridWorld, row: int, col: int): (b: bool)
    requires Shaped(g)
    ensures !InBounds(g, row, col) ==> b
    ensures Valid(g) && InBounds(g, row, col) ==> (b <==> Pos(row, col) in g.emptyCells)
  {
    Get(g, row, col) == 0
  }

  /** A direct store into the matrix, bypassing the index of empty cells. */
  function Write(cells: seq<seq<int>>, row: nat, col: nat, value: int): seq<seq<int>>
    requires row < |cells| && col < |cells[row]|
  {
    cells[row := cells[row][col := value]]
  }

  lemma WriteKeepsShape(g: GridWorld, row: nat, col: nat, value: int)
    requires Shaped(g) && InBounds(g, row, col)
    ensures Shaped(g.(cells := Write(g.cells, row, col, value)))
  {
  }

  /** `set`: stores `value` in bounds and moves the coordinate into or out of the
      index of empty cells; outside the grid nothing changes. */
  function Set(g: GridWorld, row: int, col: int, value: int): (g': GridWorld)
    requires Valid(g)
    ensures Valid(g')
    ensures g'.height == g.height && g'.width == g.width && g'.numColors == g.numColors
    ensures !InBounds(g, row, col) ==> g' == g
    ensures InBounds(g, row, col) ==> Get(g', row, col) == value
    ensures forall r, c :: (r != row || c != col) ==> Get(g', r, c) == Get(g, r, c)
  {
    if !InBounds(g, row, col) then g
    else
      var previous := g.cells[row][col];
      var empty :=
        if previous != 0 && value == 0 then g.emptyCells + {Pos(row, col)}
        else if previous == 0 && value != 0 then g.emptyCells - {Pos(row, col)}
        else g.emptyCells;
      var g' := g.(cells := Write(g.cells, row, col, value), emptyCells := empty);
      SetKeepsIndex(g, row, col, value, g');
      g'
  }

  lemma SetKeepsIndex(g: GridWorld, row: int, col: int, value: int, g': GridWorld)
    requires Valid(g) && InBounds(g, row, col)
    requires g' == g.(cells := Write(g.cells, row, col, value),
                      emptyCells :=
                        if g.cells[row][col] != 0 && value == 0 then g.emptyCells + {Pos(row, col)}
                        else if g.cells[row][col] == 0 && value != 0 then g.emptyCells - {Pos(row, col)}
                        else g.emptyCells)
    ensures Valid(g')
  {
    WriteKeepsShape(g, row, col, value);
    forall p | p in g'.emptyCells
      ensures p in EmptyIndex(g')
    {
    }
    forall p | p in EmptyIndex(g')
      ensures p in g'.emptyCells
    {
      var r, c := p.row, p.col;
      if r != row || c != col {
        assert g.cells[r][c] == 0;
        assert p in EmptyIndex(g);
      }
    }
  }

  /** An in-bounds `set` followed by `get` reads the value back. */
  lemma SetThenGet(g: GridWorld, row: int, col: int, value: int)
    requires Valid(g) && InBounds(g, row, col)
    ensures Get(Set(g, row, col, value), row, col) == value
    ensures IsEmpty(Set(g, row, col, value), row, col) <==> value == 0
  {
  }

  /** A write of a value in 0..K keeps every value in range. */
  lemma SetKeepsColoursInRange(g: GridWorld, row: int, col: int, value: int)
    requires Valid(g) && ColoursInRange(g) && 0 <= value <= g.numColors
    ensures ColoursInRange(Set(g, row, col, value))
  {
    var g' := Set(g, row, col, value);
    forall r, c | 0 <= r < g'.height && 0 <= c < g'.width
      ensures 0 <= g'.cells[r][c] <= g'.numColors
    {
      assert g'.cells[r][c] == Get(g', r, c);
    }
  }

  // ---------------------------------------------------------------- counting

  /** Number of entries of a row equal to `v`. */
  function RowCount(row: seq<int>, v: int): (n: nat)
    ensures n <= |row|
  {
    if row == [] then 0 else (if row[0] == v then 1 else 0) + RowCount(row[1..], v)
  }

  /** Number of cells of the matrix holding `v`. */
  function CountValue(cells: seq<seq<int>>, v: int): nat
  {
    if cells == [] then 0 else RowCount(cells[0], v) + CountValue(cells[1..], v)
  }

  /** Replacing one entry changes the count of `v` by what left and what arrived. */
  lemma {:induction false} RowCountUpdate(row: seq<int>, i: nat, x: int, v: int)
    requires i < |row|
    ensures RowCount(row[i := x], v)
            == RowCount(row, v) - (if row[i] == v then 1 else 0) + (if x == v then 1 else 0)
  {
    if i == 0 {
      assert row[i := x][1..] == row[1..];
    } else {
      assert row[i := x][1..] == row[1..][i - 1 := x];
      RowCountUpdate(row[1..], i - 1, x, v);
    }
  }

  /** A single-cell write moves exactly one cell between value counts. */
  lemma {:induction false} CountValueWrite(cells: seq<seq<int>>, row: nat, col: nat, x: int, v: int)
    requires row < |cells| && col < |cells[row]|
    ensures CountValue(Write(cells, row, col, x), v)
            == CountValue(cells, v) - (if cells[row][col] == v then 1 else 0) + (if x == v then 1 else 0)
  {
    var w := Write(cells, row, col, x);
    if row == 0 {
      assert w[1..] == cells[1..];
      RowCountUpdate(cells[0], col, x, v);
    } else {
      assert w[1..] == Write(cells[1..], row - 1, col, x);
      CountValueWrite(cells[1..], row - 1, col, x, v);
    }
  }

  /** Writing the value a cell already holds changes nothing. */
  lemma WriteSame(cells: seq<seq<int>>, row: nat, col: nat)
    requires row < |cells| && col < |cells[row]|
    ensures Write(cells, row, col, cells[row][col]) == cells
  {
    assert cells[row][col := cells[row][col]] == cells[row];
  }

  // -------------------------------------------------------------- neighbours

  /** Inner loop of `get_neighbors`: column offsets dc..radius in row offset `dr`,
      skipping the centre and every out-of-bounds coordinate. */
  function NeighborsInRow(g: GridWorld, row: int, col: int, radius: int, dr: int, dc: int): (ns: seq<Neighbor>)
    requires Shaped(g)
    ensures forall i :: 0 <= i < |ns| ==>
              && ns[i].pos.row == row + dr
              && col + dc <= ns[i].pos.col <= col + radius
              && InBounds(g, ns[i].pos.row, ns[i].pos.col)
              && ns[i].pos != Pos(row, col)
              && ns[i].value == g.cells[ns[i].pos.row][ns[i].pos.col]
    ensures forall i, j :: 0 <= i < j < |ns| ==> ns[i].pos.col < ns[j].pos.col
    decreases radius - dc + 1
  {
    if dc > radius then []
    else
      var r, c := row + dr, col + dc;
      (if (dr == 0 && dc == 0) || !InBounds(g, r, c) then [] else [Neighbor(Pos(r, c), g.cells[r][c])])
      + NeighborsInRow(g, row, col, radius, dr, dc + 1)
  }

  /** Outer loop of `get_neighbors`: row offsets dr..radius. */
  function NeighborsFrom(g: GridWorld, row: int, col: int, radius: int, dr: int): (ns: seq<Neighbor>)
    requires Shaped(g)
    ensures forall i :: 0 <= i < |ns| ==>
              && row + dr <= ns[i].pos.row <= row + radius
              && col - radius <= ns[i].pos.col <= col + radius
              && InBounds(g, ns[i].pos.row, ns[i].pos.col)
              && ns[i].pos != Pos(row, col)
              && ns[i].value == g.cells[ns[i].pos.row][ns[i].pos.col]
    ensures forall i, j :: 0 <= i < j < |ns| ==> Before(ns[i].pos, ns[j].pos)
    decreases radius - dr + 1
  {
    if dr > radius then []
    else
      var here := NeighborsInRow(g, row, col, radius, dr, -radius);
      var rest := NeighborsFrom(g, row, col, radius, dr + 1);
      assert forall i, j :: 0 <= i < |here| && 0 <= j < |rest| ==> here[i].pos.row < rest[j].pos.row;
      here + rest
  }

  /** Row-major order of coordinates. */
  predicate Before(p: Pos, q: Pos) {
    p.row < q.row || (p.row == q.row && p.col < q.col)
  }

  /** `get_neighbors(row, col, radius)`: the in-bounds cells of the square of the
      given radius around (row, col), centre excluded, in row-major order. */
  function NeighborsWithin(g: GridWorld, row: int, col: int, radius: int): (ns: seq<Neighbor>)
    requires Shaped(g)
    ensures forall i :: 0 <= i < |ns| ==>
              && InBounds(g, ns[i].pos.row, ns[i].pos.col)
              && ns[i].pos != Pos(row, col)
              && Abs(ns[i].pos.row - row) <= radius && Abs(ns[i].pos.col - col) <= radius
              && ns[i].value == g.cells[ns[i].pos.row][ns[i].pos.col]
    ensures forall i, j :: 0 <= i < j < |ns| ==> ns[i].pos != ns[j].pos
  {
    NeighborsFrom(g, row, col, radius, -radius)
  }

  /** The 8-neighbourhood (radius 1), the only radius the simulation uses. */
  function Neighbors(g: GridWorld, row: int, col: int): seq<Neighbor>
    requires Shaped(g)
  {
    NeighborsWithin(g, row, col, 1)
  }

  /** Every in-bounds cell of the square except the centre is listed. */
  lemma {:induction false} NeighborsInRowComplete(g: GridWorld, row: int, col: int, radius: int, dr: int, dc: int, c: int)
    requires Shaped(g)
    requires dc <= c - col <= radius && InBounds(g, row + dr, c) && (dr != 0 || c != col)
    ensures Neighbor(Pos(row + dr, c), g.cells[row + dr][c]) in NeighborsInRow(g, row, col, radius, dr, dc)
    decreases radius - dc + 1
  {
    var x := Neighbor(Pos(row + dr, c), g.cells[row + dr][c]);
    var rest := NeighborsInRow(g, row, col, radius, dr, dc + 1);
    var head := if (dr == 0 && dc == 0) || !InBounds(g, row + dr, col + dc) then []
                else [Neighbor(Pos(row + dr, col + dc), g.cells[row + dr][col + dc])];
    assert NeighborsInRow(g, row, col, radius, dr, dc) == head + rest;
    if c - col != dc {
      NeighborsInRowComplete(g, row, col, radius, dr, dc + 1, c);
      assert x in head + rest;
    } else {
      assert head == [x];
    }
  }

  lemma {:induction false} NeighborsFromComplete(g: GridWorld, row: int, col: int, radius: int, dr: int, r: int, c: int)
    requires Shaped(g)
    requires dr <= r - row <= radius && Abs(c - col) <= radius && InBounds(g, r, c) && Pos(r, c) != Pos(row, col)
    ensures Neighbor(Pos(r, c), g.cells[r][c]) in NeighborsFrom(g, row, col, radius, dr)
    decreases radius - dr + 1
  {
    if r - row == dr {
      NeighborsInRowComplete(g, row, col, radius, dr, -radius, c);
    } else {
      NeighborsFromComplete(g, row, col, radius, dr + 1, r, c);
    }
  }

  /** `get_neighbors` lists exactly the in-bounds cells within the radius other than
      the centre: together with the ensures of NeighborsWithin, membership is an
      if-and-only-if. */
  lemma NeighborsComplete(g: GridWorld, row: int, col: int, radius: int, r: int, c: int)
    requires Shaped(g)
    requires InBounds(g, r, c) && Pos(r, c) != Pos(row, col)
    requires Abs(r - row) <= radius && Abs(c - col) <= radius
    ensures Neighbor(Pos(r, c), g.cells[r][c]) in NeighborsWithin(g, row, col, radius)
  {
    assert -radius <= r - row <= radius && Abs(c - col) <= radius;
    NeighborsFromComplete(g, row, col, radius, -radius, r, c);
  }

  /** Number of offsets d in lo..radius with 0 <= x + d < n. */
  function SpanFrom(x: int, n: int, lo: int, radius: int): nat
    decreases radius - lo + 1
  {
    if lo > radius then 0 else (if 0 <= x + lo < n then 1 else 0) + SpanFrom(x, n, lo + 1, radius)
  }

  /** Number of in-range coordinates among x - radius .. x + radius. */
  function Span(x: int, n: int, radius: int): nat {
    SpanFrom(x, n, -radius, radius)
  }

  lemma {:induction false} NeighborsInRowCount(g: GridWorld, row: int, col: int, radius: int, dr: int, dc: int)
    requires Shaped(g)
    ensures |NeighborsInRow(g, row, col, radius, dr, dc)|
            == if 0 <= row + dr < g.height
               then SpanFrom(col, g.width, dc, radius)
                    - (if dr == 0 && dc <= 0 <= radius && 0 <= col < g.width then 1 else 0)
               else 0
    decreases radius - dc + 1
  {
    if dc <= radius {
      NeighborsInRowCount(g, row, col, radius, dr, dc + 1);
    }
  }

  lemma {:induction false} NeighborsFromCount(g: GridWorld, row: int, col: int, radius: int, dr: int)
    requires Shaped(g)
    ensures |NeighborsFrom(g, row, col, radius, dr)|
            == SpanFrom(row, g.height, dr, radius) * Span(col, g.width, radius)
               - (if dr <= 0 <= radius && InBounds(g, row, col) then 1 else 0)
    decreases radius - dr + 1
  {
    if dr <= radius {
      var here := NeighborsInRow(g, row, col, radius, dr, -radius);
      var rest := NeighborsFrom(g, row, col, radius, dr + 1);
      assert |NeighborsFrom(g, row, col, radius, dr)| == |here| + |rest|;
      var h := if 0 <= row + dr < g.height then 1 else 0;
      var b := SpanFrom(row, g.height, dr + 1, radius);
      var s := Span(col, g.width, radius);
      var centre := if dr == 0 && 0 <= radius && InBounds(g, row, col) then 1 else 0;
      NeighborsInRowCount(g, row, col, radius, dr, -radius);
      assert |here| == h * s - centre;
      NeighborsFromCount(g, row, col, radius, dr + 1);
      assert SpanFrom(row, g.height, dr, radius) == h + b;
      Distribute(h, b, s);
    }
  }

  lemma Distribute(a: int, b: int, s: int)
    ensures (a + b) * s == a * s + b * s
  {
  }

  /** The neighbour count is (rows in range) x (columns in range), less the centre
      when the centre itself is in bounds. */
  lemma NeighborsCount(g: GridWorld, row: int, col: int, radius: int)
    requires Shaped(g)
    ensures |NeighborsWithin(g, row, col, radius)|
            == Span(row, g.height, radius) * Span(col, g.width, radius)
               - (if radius >= 0 && InBounds(g, row, col) then 1 else 0)
  {
    NeighborsFromCount(g, row, col, radius, -radius);
  }

  /** With radius 1 an in-range coordinate has 2 in-range offsets at either end of
      an axis of length at least 2, 3 strictly inside, and 1 on an axis of length 1. */
  lemma SpanOne(x: int, n: int)
    requires 0 <= x < n
    ensures Span(x, n, 1) == if n == 1 then 1 else if x == 0 || x == n - 1 then 2 else 3
  {
    assert Span(x, n, 1) == SpanFrom(x, n, -1, 1);
    assert SpanFrom(x, n, 2, 1) == 0;
  }

  /** On a grid of at least 2 x 2, an in-bounds cell has 3 neighbours in a corner,
      5 on an edge and 8 in the interior. */
  lemma CornerEdgeInterior(g: GridWorld, row: int, col: int)
    requires Shaped(g) && g.height >= 2 && g.width >= 2 && InBounds(g, row, col)
    ensures var onRowEdge := row == 0 || row == g.height - 1;
            var onColEdge := col == 0 || col == g.width - 1;
            |Neighbors(g, row, col)|
            == if onRowEdge && onColEdge then 3 else if onRowEdge || onColEdge then 5 else 8
  {
    NeighborsCount(g, row, col, 1);
    SpanOne(row, g.height);
    SpanOne(col, g.width);
  }

  /** A 1 x 1 grid gives its only cell no neighbours. */
  lemma SingleCellHasNoNeighbors(g: GridWorld)
    requires Shaped(g) && g.height == 1 && g.width == 1
    ensures |Neighbors(g, 0, 0)| == 0
  {
    NeighborsCount(g, 0, 0, 1);
    SpanOne(0, 1);
  }

  // -------------------------------------------------------------- similarity

  /** Number of listed neighbours holding `color`. */
  function Matching(ns: seq<Neighbor>, color: int): (m: nat)
    ensures m <= |ns|
  {
    if ns == [] then 0 else (if ns[0].value == color then 1 else 0) + Matching(ns[1..], color)
  }

  /** `get_local_similarity`: the fraction of ALL in-bounds neighbours (empty ones
      included) holding `color`; 0 when there is no neighbour. */
  function LocalSimilarity(g: GridWorld, row: int, col: int, color: int): (s: real)
    requires Shaped(g)
    ensures 0.0 <= s <= 1.0
    ensures |Neighbors(g, row, col)| == 0 ==> s == 0.0
  {
    SimilarityOf(Neighbors(g, row, col), color)
  }

  /** The fraction of the listed neighbours holding `color`, 0 for an empty list:
      times the length of the list it gives the number of matching entries. */
  function SimilarityOf(ns: seq<Neighbor>, color: int): (s: real)
    ensures 0.0 <= s <= 1.0
    ensures |ns| == 0 ==> s == 0.0
    ensures s * |ns| as real == Matching(ns, color) as real
  {
    Fraction(Matching(ns, color), |ns|)
  }

  /** m / n as a real, 0 for n = 0. */
  function Fraction(m: nat, n: nat): (q: real)
    requires m <= n
    ensures 0.0 <= q <= 1.0
    ensures n == 0 ==> q == 0.0
    ensures q * n as real == m as real
    ensures n > 0 ==> (q == 1.0 <==> m == n)
    ensures q == 0.0 <==> m == 0 || n == 0
  {
    if n == 0 then 0.0
    else
      Ratio(m, n);
      Quotient(m as real, n as real);
      m as real / n as real
  }

  /** Facts about m / n for 0 <= m <= n, n > 0. */
  lemma Ratio(m: nat, n: nat)
    requires 0 < n && m <= n
    ensures 0.0 <= m as real / n as real <= 1.0
    ensures m as real / n as real == 1.0 <==> m == n
    ensures m as real / n as real == 0.0 <==> m == 0
  {
  }

  lemma {:induction false} MatchingAll(ns: seq<Neighbor>, color: int)
    ensures Matching(ns, color) == |ns| <==> forall i :: 0 <= i < |ns| ==> ns[i].value == color
  {
    if ns != [] {
      MatchingAll(ns[1..], color);
      if Matching(ns, color) == |ns| {
        assert ns[0].value == color;
        forall i | 1 <= i < |ns| ensures ns[i].value == color {
          assert ns[1..][i - 1] == ns[i];
        }
      }
      if forall i :: 0 <= i < |ns| ==> ns[i].value == color {
        assert forall i :: 0 <= i < |ns| - 1 ==> ns[1..][i].value == color;
      }
    }
  }

  lemma {:induction false} MatchingNone(ns: seq<Neighbor>, color: int)
    ensures Matching(ns, color) == 0 <==> forall i :: 0 <= i < |ns| ==> ns[i].value != color
  {
    if ns != [] {
      MatchingNone(ns[1..], color);
      if Matching(ns, color) == 0 {
        forall i | 1 <= i < |ns| ensures ns[i].value != color {
          assert ns[1..][i - 1] == ns[i];
        }
      }
      if forall i :: 0 <= i < |ns| ==> ns[i].value != color {
        assert forall i :: 0 <= i < |ns| - 1 ==> ns[1..][i].value != color;
      }
    }
  }

  /** Similarity is 1 exactly when there are neighbours and every one holds `color`,
      and 0 exactly when no neighbour holds it (vacuously so when there are none). */
  lemma SimilarityExtremes(g: GridWorld, row: int, col: int, color: int)
    requires Shaped(g)
    ensures var ns := Neighbors(g, row, col);
            LocalSimilarity(g, row, col, color) == 1.0
            <==> |ns| > 0 && forall i :: 0 <= i < |ns| ==> ns[i].value == color
    ensures var ns := Neighbors(g, row, col);
            LocalSimilarity(g, row, col, color) == 0.0
            <==> forall i :: 0 <= i < |ns| ==> ns[i].value != color
  {
    var ns := Neighbors(g, row, col);
    MatchingAll(ns, color);
    MatchingNone(ns, color);
  }
}
