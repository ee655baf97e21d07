/** Construction of the grid world (`GridWorld.__init__` in objects/grid.py): the
    number of objects from the fill percentage, the even split over the K colours,
    and the colour-major placement along a shuffled list of all coordinates.

    The shuffle is an input: `order` is the list of all H x W coordinates in the
    order `random.shuffle` left them. */
module GridInit {
  import opened Wrappers
  import opened Grid

  /** The failures of construction: `np.zeros` refuses a negative dimension, and
      `num_objects // num_colors` divides by zero when K = 0. */
  datatype ConfigError = NegativeDimension | ZeroColors

  /** Python's `int(x)` on a float: truncation toward zero. */
  function Truncate(x: real): int {
    if x >= 0.0 then x.Floor else -((-x).Floor)
  }

  /** `num_objects = int(H * W * p / 100.0)`. */
  function ObjectCount(height: int, width: int, fill: real): int {
    Truncate((height * width) as real * fill / 100.0)
  }

  /** `objects_per_color + (1 if color <= remainder else 0)` with Python's floor `//`
      and `%` (which agree with Dafny's for a positive divisor); a negative count is
      an empty `range` and places nothing. */
  function ColourCount(n: int, k: int, color: int): nat
    requires k > 0
  {
    var count := n / k + (if color <= n % k then 1 else 0);
    if count < 0 then 0 else count
  }

  function Repeat(v: int, count: nat): (s: seq<int>)
    ensures |s| == count && forall i :: 0 <= i < count ==> s[i] == v
  {
    seq(count, _ => v)
  }

  /** The colours written for colours 1 .. c - 1, in the order the loop writes them. */
  function ColoursBelow(n: int, k: int, c: int): seq<int>
    requires k > 0 && 1 <= c <= k + 1
    decreases c
  {
    if c == 1 then [] else ColoursBelow(n, k, c - 1) + Repeat(c - 1, ColourCount(n, k, c - 1))
  }

  /** The whole colour-major write sequence: colour 1 first, then colour 2, ... */
  function ColourSequence(n: int, k: int): seq<int> {
    if k <= 0 then [] else ColoursBelow(n, k, k + 1)
  }

  /** `order` lists every coordinate of the grid exactly once. */
  predicate IsShuffle(order: seq<Pos>, height: int, width: int) {
    && |order| == height * width
    && (forall i :: 0 <= i < |order| ==> 0 <= order[i].row < height && 0 <= order[i].col < width)
    && (forall i, j :: 0 <= i < j < |order| ==> order[i] != order[j])
  }

  function Zeros(height: nat, width: nat): (cells: seq<seq<int>>)
    ensures |cells| == height && forall r :: 0 <= r < height ==> cells[r] == Repeat(0, width)
  {
    seq(height, _ => Repeat(0, width))
  }

  // ------------------------------------------------------- colour sequence facts

  lemma {:induction false} ColoursBelowPrefix(n: int, k: int, c: int, c': int)
    requires k > 0 && 1 <= c <= c' <= k + 1
    ensures ColoursBelow(n, k, c) <= ColoursBelow(n, k, c')
    decreases c' - c
  {
    if c < c' {
      ColoursBelowPrefix(n, k, c, c' - 1);
    }
  }

  lemma {:induction false} ColoursBelowRange(n: int, k: int, c: int)
    requires k > 0 && 1 <= c <= k + 1
    ensures forall i :: 0 <= i < |ColoursBelow(n, k, c)| ==> 1 <= ColoursBelow(n, k, c)[i] < c
    ensures forall i, j :: 0 <= i < j < |ColoursBelow(n, k, c)| ==>
              ColoursBelow(n, k, c)[i] <= ColoursBelow(n, k, c)[j]
    decreases c
  {
    if c > 1 {
      ColoursBelowRange(n, k, c - 1);
    }
  }

  lemma RowCountAppend(a: seq<int>, b: seq<int>, v: int)
    ensures RowCount(a + b, v) == RowCount(a, v) + RowCount(b, v)
  {
    if a == [] {
      assert a + b == b;
    } else {
      assert (a + b)[1..] == a[1..] + b;
      RowCountAppend(a[1..], b, v);
    }
  }

  lemma {:induction false} RowCountRepeat(c: int, count: nat, v: int)
    ensures RowCount(Repeat(c, count), v) == if c == v then count else 0
  {
    if count > 0 {
      assert Repeat(c, count)[1..] == Repeat(c, count - 1);
      RowCountRepeat(c, count - 1, v);
    }
  }

  lemma {:induction false} ColoursBelowCount(n: int, k: int, c: int, v: int)
    requires k > 0 && 1 <= c <= k + 1
    ensures RowCount(ColoursBelow(n, k, c), v) == if 1 <= v < c then ColourCount(n, k, v) else 0
    decreases c
  {
    if c > 1 {
      ColoursBelowCount(n, k, c - 1, v);
      RowCountAppend(ColoursBelow(n, k, c - 1), Repeat(c - 1, ColourCount(n, k, c - 1)), v);
      RowCountRepeat(c - 1, ColourCount(n, k, c - 1), v);
    }
  }

  lemma {:induction false} ColoursBelowLength(n: int, k: int, c: int)
    requires k > 0 && n >= 0 && 1 <= c <= k + 1
    ensures var q, rem := n / k, n % k;
            |ColoursBelow(n, k, c)| == (c - 1) * q + (if c - 1 <= rem then c - 1 else rem)
    decreases c
  {
    if c > 1 {
      ColoursBelowLength(n, k, c - 1);
      MulStep(c - 2, n / k);
    }
  }

  lemma MulStep(a: int, q: int)
    ensures (a + 1) * q == a * q + q
  {
  }

  /** The write sequence is colour-major (non-decreasing), holds only colours
      1..K, holds colour c exactly ColourCount(n, K, c) times, and for n >= 0 has
      exactly n entries. */
  lemma ColourSequenceFacts(n: int, k: int)
    requires k > 0
    ensures forall i :: 0 <= i < |ColourSequence(n, k)| ==> 1 <= ColourSequence(n, k)[i] <= k
    ensures forall i, j :: 0 <= i < j < |ColourSequence(n, k)| ==>
              ColourSequence(n, k)[i] <= ColourSequence(n, k)[j]
    ensures forall v :: RowCount(ColourSequence(n, k), v) == if 1 <= v <= k then ColourCount(n, k, v) else 0
    ensures n >= 0 ==> |ColourSequence(n, k)| == n
  {
    ColoursBelowRange(n, k, k + 1);
    forall v ensures RowCount(ColourSequence(n, k), v) == if 1 <= v <= k then ColourCount(n, k, v) else 0 {
      ColoursBelowCount(n, k, k + 1, v);
    }
    if n >= 0 {
      SequenceLength(n, k);
    }
  }

  lemma SequenceLength(n: int, k: int)
    requires k > 0 && n >= 0
    ensures |ColourSequence(n, k)| == n
  {
    ColoursBelowLength(n, k, k + 1);
    var q, rem := n / k, n % k;
    assert rem < k;
    assert |ColoursBelow(n, k, k + 1)| == k * q + rem;
  }

  /** The split is as even as possible: counts of any two colours differ by at most
      one, a lower colour never gets fewer than a higher one, and for n >= 0 colour c
      gets n / K plus one of the n % K leftover objects exactly when c <= n % K. */
  lemma EvenSplit(n: int, k: int, c: int, c': int)
    requires k > 0 && 1 <= c <= c' <= k && n >= 0
    ensures ColourCount(n, k, c) >= ColourCount(n, k, c') >= ColourCount(n, k, c) - 1
    ensures ColourCount(n, k, c) == n / k + (if c <= n % k then 1 else 0)
  {
  }

  /** For 0 <= p <= 100 the object count is floor(H * W * p / 100) and fits the grid. */
  lemma ObjectCountFits(height: nat, width: nat, fill: real)
    requires 0.0 <= fill <= 100.0
    ensures ObjectCount(height, width, fill) == ((height * width) as real * fill / 100.0).Floor
    ensures 0 <= ObjectCount(height, width, fill) <= height * width
  {
    ScaledCount(height * width, fill);
  }

  lemma ScaledCount(m: nat, fill: real)
    requires 0.0 <= fill <= 100.0
    ensures Truncate(m as real * fill / 100.0) == (m as real * fill / 100.0).Floor
    ensures 0 <= Truncate(m as real * fill / 100.0) <= m
  {
    ScaleBounds(m as real, fill);
    TruncateBounds(m as real * fill / 100.0, m);
  }

  /** 0 <= hw * p / 100 <= hw for a percentage p. */
  lemma ScaleBounds(hw: real, fill: real)
    requires 0.0 <= hw && 0.0 <= fill <= 100.0
    ensures 0.0 <= hw * fill / 100.0 <= hw
  {
    var y := hw * fill;
    assert 0.0 <= y <= hw * 100.0 by {
      assert hw * 100.0 - y == hw * (100.0 - fill);
    }
  }

  /** On [0, m] truncation is the floor and stays within [0, m]. */
  lemma TruncateBounds(x: real, m: int)
    requires 0.0 <= x <= m as real
    ensures Truncate(x) == x.Floor && 0 <= Truncate(x) <= m
  {
  }

  // ---------------------------------------------------------------- placement

  lemma {:induction false} RowCountZeros(width: nat, v: int)
    ensures RowCount(Repeat(0, width), v) == if v == 0 then width else 0
  {
    RowCountRepeat(0, width, v);
  }

  lemma {:induction false} CountValueZeros(height: nat, width: nat, v: int)
    ensures CountValue(Zeros(height, width), v) == if v == 0 then height * width else 0
  {
    if height > 0 {
      assert Zeros(height, width)[1..] == Zeros(height - 1, width);
      CountValueZeros(height - 1, width, v);
      RowCountZeros(width, v);
    }
  }

  lemma RowCountSnoc(s: seq<int>, i: nat, v: int)
    requires i < |s|
    ensures RowCount(s[..i + 1], v) == RowCount(s[..i], v) + (if s[i] == v then 1 else 0)
  {
    assert s[..i + 1] == s[..i] + [s[i]];
    RowCountAppend(s[..i], [s[i]], v);
  }

  /** After `placed` writes: the first `placed` coordinates of `order` hold the first
      `placed` colours, every other cell is still 0, and the value counts agree. */
  ghost predicate PlacedUpTo(cells: seq<seq<int>>, height: nat, width: nat, order: seq<Pos>,
                       colours: seq<int>, placed: nat)
  {
    && placed <= |order| && placed <= |colours|
    && |cells| == height && (forall r :: 0 <= r < height ==> |cells[r]| == width)
    && (forall i :: 0 <= i < |order| ==> 0 <= order[i].row < height && 0 <= order[i].col < width)
    && (forall i :: 0 <= i < |order| ==>
          cells[order[i].row][order[i].col] == if i < placed then colours[i] else 0)
    && (forall r, c :: 0 <= r < height && 0 <= c < width ==> cells[r][c] == 0 || cells[r][c] in colours)
    && CountValue(cells, 0) == height * width - placed
    && (forall v :: v != 0 ==> CountValue(cells, v) == RowCount(colours[..placed], v))
  }

  /** One placement: the next coordinate is still empty (the shuffle has no repeats),
      so the write adds one object of the next colour and overwrites nothing. */
  lemma PlaceStep(cells: seq<seq<int>>, height: nat, width: nat, order: seq<Pos>,
                  colours: seq<int>, placed: nat)
    requires PlacedUpTo(cells, height, width, order, colours, placed)
    requires IsShuffle(order, height, width)
    requires placed < |order| && placed < |colours| && colours[placed] != 0
    ensures var p := order[placed];
            PlacedUpTo(Write(cells, p.row, p.col, colours[placed]), height, width, order, colours, placed + 1)
  {
    var p := order[placed];
    var color := colours[placed];
    var cells' := Write(cells, p.row, p.col, color);
    assert cells[p.row][p.col] == 0;
    forall i | 0 <= i < |order|
      ensures cells'[order[i].row][order[i].col] == if i < placed + 1 then colours[i] else 0
    {
      if i != placed {
        assert order[i] != p;
      }
    }
    CountValueWrite(cells, p.row, p.col, color, 0);
    forall v | v != 0
      ensures CountValue(cells', v) == RowCount(colours[..placed + 1], v)
    {
      CountValueWrite(cells, p.row, p.col, color, v);
      RowCountSnoc(colours, placed, v);
    }
  }

  /** What construction promises: the first `placed` shuffled coordinates hold the
      colour-major write sequence, every other cell is 0, the index of empty cells
      is exact, and the value counts follow. */
  ghost predicate Constructed(g: GridWorld, height: int, width: int, numColors: int, fill: real, order: seq<Pos>)
  {
    var colours := ColourSequence(ObjectCount(height, width, fill), numColors);
    var placed := if |colours| < |order| then |colours| else |order|;
    && IsShuffle(order, height, width)
    && Valid(g)
    && g.height == height && g.width == width && g.numColors == numColors
    && (forall i :: 0 <= i < |order| ==>
          g.cells[order[i].row][order[i].col] == if i < placed then colours[i] else 0)
    && (forall r, c :: 0 <= r < height && 0 <= c < width ==> g.cells[r][c] == 0 || g.cells[r][c] in colours)
    && CountValue(g.cells, 0) == height * width - placed
    && (forall v :: v != 0 ==> CountValue(g.cells, v) == RowCount(colours[..placed], v))
  }

  /** With 0 <= p <= 100 and K > 0, construction places exactly
      n = floor(H * W * p / 100) objects, colour c receiving ColourCount(n, K, c)
      of them, and every cell holds a value in 0..K. */
  lemma ConstructionCounts(g: GridWorld, height: int, width: int, numColors: int, fill: real, order: seq<Pos>)
    requires Constructed(g, height, width, numColors, fill, order)
    requires 0.0 <= fill <= 100.0 && numColors > 0
    ensures var n := ObjectCount(height, width, fill);
            && n == ((height * width) as real * fill / 100.0).Floor
            && CountValue(g.cells, 0) == height * width - n
            && (forall c :: 1 <= c <= numColors ==> CountValue(g.cells, c) == ColourCount(n, numColors, c))
            && (forall c :: c < 0 || c > numColors ==> CountValue(g.cells, c) == 0)
    ensures ColoursInRange(g)
  {
    var n := ObjectCount(height, width, fill);
    var colours := ColourSequence(n, numColors);
    ObjectCountFits(height, width, fill);
    ColourSequenceFacts(n, numColors);
    assert colours[..|colours|] == colours;
    forall r, c | 0 <= r < g.height && 0 <= c < g.width
      ensures 0 <= g.cells[r][c] <= g.numColors
    {
      if g.cells[r][c] != 0 {
        var i :| 0 <= i < |colours| && colours[i] == g.cells[r][c];
      }
    }
  }

  /** With a negative number of colours the colour loop is empty: every cell stays 0. */
  lemma NegativeColoursLeaveEmpty(g: GridWorld, height: int, width: int, numColors: int, fill: real, order: seq<Pos>)
    requires Constructed(g, height, width, numColors, fill, order) && numColors < 0
    ensures forall r, c :: 0 <= r < height && 0 <= c < width ==> g.cells[r][c] == 0
    ensures CountValue(g.cells, 0) == height * width
  {
  }

  /** A fill of 100% or more asks for at least H * W objects; placement stops when
      the shuffled coordinates run out, so no cell is left empty. */
  lemma OverfullLeavesNoEmptyCell(g: GridWorld, height: int, width: int, numColors: int, fill: real, order: seq<Pos>)
    requires Constructed(g, height, width, numColors, fill, order) && numColors > 0 && fill >= 100.0
    ensures CountValue(g.cells, 0) == 0
    ensures g.emptyCells == {}
  {
    var n := ObjectCount(height, width, fill);
    OverfullCount(height, width, fill);
    ColourSequenceFacts(n, numColors);
    assert CountValue(g.cells, 0) == 0;
    NoneOfValue(g.cells, 0);
    NoEmptyCells(g);
  }

  lemma OverfullCount(height: nat, width: nat, fill: real)
    requires fill >= 100.0
    ensures ObjectCount(height, width, fill) >= height * width
  {
    var hw := (height * width) as real;
    assert hw * fill / 100.0 >= hw by {
      assert hw * fill >= hw * 100.0;
    }
  }

  lemma NoEmptyCells(g: GridWorld)
    requires Shaped(g)
    requires forall r, c :: 0 <= r < |g.cells| && 0 <= c < |g.cells[r]| ==> g.cells[r][c] != 0
    ensures EmptyIndex(g) == {}
  {
  }

  lemma {:induction false} NoneInRow(row: seq<int>, v: int)
    requires RowCount(row, v) == 0
    ensures forall i :: 0 <= i < |row| ==> row[i] != v
  {
    if row != [] {
      NoneInRow(row[1..], v);
      assert forall i :: 1 <= i < |row| ==> row[i] == row[1..][i - 1];
    }
  }

  /** A value that is counted zero times occurs nowhere. */
  lemma {:induction false} NoneOfValue(cells: seq<seq<int>>, v: int)
    requires CountValue(cells, v) == 0
    ensures forall r, c :: 0 <= r < |cells| && 0 <= c < |cells[r]| ==> cells[r][c] != v
  {
    if cells != [] {
      NoneInRow(cells[0], v);
      NoneOfValue(cells[1..], v);
      assert forall r :: 1 <= r < |cells| ==> cells[r] == cells[1..][r - 1];
    }
  }

  lemma PlacedInitially(height: nat, width: nat, order: seq<Pos>, colours: seq<int>)
    requires IsShuffle(order, height, width)
    ensures PlacedUpTo(Zeros(height, width), height, width, order, colours, 0)
  {
    CountValueZeros(height, width, 0);
    forall v | v != 0 ensures CountValue(Zeros(height, width), v) == RowCount(colours[..0], v) {
      CountValueZeros(height, width, v);
    }
  }

  lemma PlacedFinally(g: GridWorld, height: nat, width: nat, numColors: int, fill: real, order: seq<Pos>, posIdx: nat)
    requires IsShuffle(order, height, width)
    requires numColors > 0 ==> posIdx == var below := |ColoursBelow(ObjectCount(height, width, fill), numColors, numColors + 1)|;
                                         if below < |order| then below else |order|
    requires numColors < 0 ==> posIdx == 0
    requires PlacedUpTo(g.cells, height, width, order, ColourSequence(ObjectCount(height, width, fill), numColors), posIdx)
    requires g.height == height && g.width == width && g.numColors == numColors && g.emptyCells == EmptyIndex(g)
    ensures Constructed(g, height, width, numColors, fill, order)
  {
  }

  /** The inner loop of the construction: `count` placements of `color`, each
      skipped once the coordinates have run out. `start` is how many colours the
      write sequence holds before this colour's run. */
  method PlaceColour(cells: seq<seq<int>>, height: nat, width: nat, order: seq<Pos>,
                     ghost colours: seq<int>, posIdx: nat, color: int, count: int, ghost start: nat)
    returns (cells': seq<seq<int>>, posIdx': nat)
    requires IsShuffle(order, height, width) && color != 0
    requires PlacedUpTo(cells, height, width, order, colours, posIdx)
    requires posIdx == if start < |order| then start else |order|
    requires count > 0 ==> start + count <= |colours|
    requires forall i :: start <= i < start + count ==> colours[i] == color
    ensures PlacedUpTo(cells', height, width, order, colours, posIdx')
    ensures var upTo := start + (if count < 0 then 0 else count);
            posIdx' == if upTo < |order| then upTo else |order|
  {
    cells', posIdx' := cells, posIdx;
    var j := 0;
    while j < count
      invariant 0 <= j && (count >= 0 ==> j <= count) && (count < 0 ==> j == 0)
      invariant var upTo := start + j;
                posIdx' == if upTo < |order| then upTo else |order|
      invariant PlacedUpTo(cells', height, width, order, colours, posIdx')
    {
      if posIdx' < |order| {
        var p := order[posIdx'];
        assert posIdx' == start + j < |colours| && colours[posIdx'] == color;
        PlaceStep(cells', height, width, order, colours, posIdx');
        cells' := Write(cells', p.row, p.col, color);
        posIdx' := posIdx' + 1;
      }
      j := j + 1;
    }
  }

  /** Colour `color` occupies the `count` entries of the colour sequence that
      follow the lower colours' entries, and then the next colour's block begins. */
  lemma ColourBlock(n: int, k: int, color: int)
    requires k > 0 && 1 <= color <= k
    ensures var below, count := ColoursBelow(n, k, color), n / k + (if color <= n % k then 1 else 0);
            && (count > 0 ==> |below| + count <= |ColourSequence(n, k)|)
            && (forall i :: |below| <= i < |below| + count ==> ColourSequence(n, k)[i] == color)
            && |ColoursBelow(n, k, color + 1)| == |below| + (if count < 0 then 0 else count)
  {
    ColoursBelowPrefix(n, k, color + 1, k + 1);
    var below := ColoursBelow(n, k, color);
    var next := ColoursBelow(n, k, color + 1);
    var count := n / k + (if color <= n % k then 1 else 0);
    assert next == below + Repeat(color, ColourCount(n, k, color));
    assert next <= ColourSequence(n, k);
    assert count > 0 ==> count == ColourCount(n, k, color);
    assert forall i :: |below| <= i < |below| + count ==> ColourSequence(n, k)[i] == next[i] == color;
  }

  /** `GridWorld(height, width, num_colors, fill_percentage)` with the shuffle
      supplied as `order`. The nested loops mirror the source: colours in increasing
      order, `count` placements each, skipped once the coordinates run out. */
  method Construct(height: int, width: int, numColors: int, fill: real, order: seq<Pos>)
    returns (res: Result<GridWorld, ConfigError>)
    requires height >= 0 && width >= 0 ==> IsShuffle(order, height, width)
    ensures height < 0 || width < 0 <==> res == Failure(NegativeDimension)
    ensures height >= 0 && width >= 0 && numColors == 0 <==> res == Failure(ZeroColors)
    ensures res.Success? ==> Constructed(res.value, height, width, numColors, fill, order)
  {
    if height < 0 || width < 0 {
      return Failure(NegativeDimension);
    }
    if numColors == 0 {
      return Failure(ZeroColors);
    }
    var n := ObjectCount(height, width, fill);
    ghost var colours := ColourSequence(n, numColors);
    var cells := Zeros(height, width);
    PlacedInitially(height, width, order, colours);
    var posIdx := 0;
    var color := 1;
    while color <= numColors
      invariant numColors > 0 ==> 1 <= color <= numColors + 1
      invariant numColors < 0 ==> color == 1 && posIdx == 0
      invariant numColors > 0 ==>
                  var below := |ColoursBelow(n, numColors, color)|;
                  posIdx == if below < |order| then below else |order|
      invariant PlacedUpTo(cells, height, width, order, colours, posIdx)
    {
      var count := n / numColors + (if color <= n % numColors then 1 else 0);
      ColourBlock(n, numColors, color);
      ghost var below := |ColoursBelow(n, numColors, color)|;
      cells, posIdx := PlaceColour(cells, height, width, order, colours, posIdx, color, count, below);
      color := color + 1;
    }
    var g := GridWorld(height, width, numColors, cells, {});
    g := g.(emptyCells := EmptyIndex(g));
    PlacedFinally(g, height, width, numColors, fill, order, posIdx);
    return Success(g);
  }
}
