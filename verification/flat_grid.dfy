/**
 The flat-grid engine: a `GameBoard` keeps its cells in one row-major
 vector of booleans, `width * height` long, where the cell at column `x`
 and row `y` sits at index `x + y * width`. Neighbour coordinates are
 `u16` values and wrap when cast; the index itself is computed exactly
 here, while the source computes it in `u16` (`WrappedIndex`). The two
 are guaranteed to agree only on boards of at most 65536 cells.
 */
module FlatGrid {
  import opened Life

  /** A cell position: `x` is the column, `y` the row. */
  datatype Point = Point(x: U16, y: U16)

  datatype GameBoard = GameBoard(width: U16, height: U16, points: seq<bool>) {
    /** The field holds exactly `width * height` cells. */
    predicate Valid()
    {
      |points| == width * height
    }
  }

  /** Row-major index of column `x`, row `y`. */
  function Index(width: int, x: int, y: int): int
  {
    x + y * width
  }

  function PointIndex(width: int, p: Point): int
  {
    Index(width, p.x, p.y)
  }

  /**
   The index as the source evaluates `x + y * width`: in `u16` arithmetic,
   which keeps only the low 16 bits when overflow is not checked (and
   panics when it is).
   */
  function WrappedIndex(width: U16, x: U16, y: U16): (r: U16)
    ensures Index(width, x, y) < 0x1_0000 ==> r == Index(width, x, y)
    ensures (r - Index(width, x, y)) % 0x1_0000 == 0
  {
    Wrap16(x + y * width)
  }

  /**
   On a 512 x 512 board, a size the benchmarks use, the `u16` index sends
   column 0 of row 128 to the cell of column 0, row 0.
   */
  lemma WrappedIndexCollides()
    ensures 0 < 128 < 512 && Index(512, 0, 128) != Index(512, 0, 0)
    ensures WrappedIndex(512, 0, 128) == WrappedIndex(512, 0, 0)
  {
  }

  /**
   A seed whose exact index lies past the vector can still wrap back inside
   it: on a 10 x 10 board the seed (0, 6554) has exact index 65540, which
   `SeedsFit` rejects, but its `u16` index is 4, the index of cell (4, 0).
   */
  lemma WrappedSeedLandsInside()
    ensures !SeedsFit(10, 10, [Point(0, 6554)])
    ensures WrappedIndex(10, 0, 6554) == Index(10, 4, 0) < 10 * 10
  {
    assert PointIndex(10, [Point(0, 6554)][0]) == 65540;
  }

  /**
   A wrapped seed index can also land past the vector: on a 10 x 10 board
   the seed (0, 6600) has exact index 66000, whose `u16` value 464 is still
   past the 100 cells, so the write panics even without overflow checks.
   */
  lemma WrappedSeedPastVector()
    ensures !SeedsFit(10, 10, [Point(0, 6600)])
    ensures WrappedIndex(10, 0, 6600) == 464 && 464 >= 10 * 10
  {
    assert PointIndex(10, [Point(0, 6600)][0]) == 66000;
  }

  /** On a board of at most 65536 cells the `u16` index is exact. */
  lemma WrappedIndexExact(width: U16, height: U16, x: U16, y: U16)
    requires width * height <= 0x1_0000
    requires x < width && y < height
    ensures WrappedIndex(width, x, y) == Index(width, x, y)
  {
    IndexBounds(width, height, x, y);
  }

  /** Multiplying by a non-negative factor keeps an order. */
  lemma {:induction false} MulMonotone(a: int, b: int, c: nat)
    requires a <= b
    ensures a * c <= b * c
  {
    if c > 0 {
      MulMonotone(a, b, c - 1);
      assert a * c == a * (c - 1) + a;
      assert b * c == b * (c - 1) + b;
    }
  }

  lemma IndexBounds(width: int, height: int, x: int, y: int)
    requires 0 <= x < width && 0 <= y < height
    ensures 0 <= Index(width, x, y) < width * height
  {
    MulMonotone(0, y, width);
    MulMonotone(y + 1, height, width);
    assert (y + 1) * width == y * width + width;
    assert height * width == width * height;
  }

  /** Distinct in-range positions have distinct indices. */
  lemma IndexInjective(width: int, x: int, y: int, x': int, y': int)
    requires 0 <= x < width && 0 <= x' < width && 0 <= y && 0 <= y'
    requires Index(width, x, y) == Index(width, x', y')
    ensures x == x' && y == y'
  {
    if y < y' {
      MulMonotone(y + 1, y', width);
    } else if y' < y {
      MulMonotone(y' + 1, y, width);
    }
  }

  /** The position whose index is `idx`: `idx % width` is the column, `idx / width` the row. */
  lemma IndexDivMod(width: int, height: int, idx: int)
    requires 0 <= width && 0 <= height && 0 <= idx < width * height
    ensures width > 0
    ensures 0 <= idx % width < width && 0 <= idx / width < height
    ensures Index(width, idx % width, idx / width) == idx
  {
    var x, y := idx % width, idx / width;
    assert idx == y * width + x;
    if y < 0 {
      MulMonotone(y, -1, width);
    }
    if y >= height {
      MulMonotone(height, y, width);
    }
  }

  /** The cell at column `x`, row `y`. */
  function Cell(b: GameBoard, x: int, y: int): bool
    requires b.Valid() && 0 <= x < b.width && 0 <= y < b.height
  {
    IndexBounds(b.width, b.height, x, y);
    b.points[Index(b.width, x, y)]
  }

  /** Whether the position is on the grid and live: off-grid positions count as dead. */
  predicate Alive(b: GameBoard, x: int, y: int)
    requires b.Valid()
  {
    0 <= x < b.width && 0 <= y < b.height && Cell(b, x, y)
  }

  /**
   The number of live cells among the eight Moore neighbours of `(x, y)`,
   over signed coordinates with a hard, non-wrapping edge. This is the
   reference the engines are compared against.
   */
  function MooreCount(b: GameBoard, x: int, y: int): nat
    requires b.Valid()
  {
    Indicator(Alive(b, x - 1, y - 1)) + Indicator(Alive(b, x, y - 1)) + Indicator(Alive(b, x + 1, y - 1))
    + Indicator(Alive(b, x - 1, y))                                     + Indicator(Alive(b, x + 1, y))
    + Indicator(Alive(b, x - 1, y + 1)) + Indicator(Alive(b, x, y + 1)) + Indicator(Alive(b, x + 1, y + 1))
  }

  /** `b` with the cell at `(x, y)` set to `v`. */
  function SetCell(b: GameBoard, x: int, y: int, v: bool): (r: GameBoard)
    requires b.Valid() && 0 <= x < b.width && 0 <= y < b.height
    ensures r.Valid() && r.width == b.width && r.height == b.height
  {
    IndexBounds(b.width, b.height, x, y);
    b.(points := b.points[Index(b.width, x, y) := v])
  }

  lemma AliveAfterSet(b: GameBoard, x: int, y: int, v: bool, a: int, c: int)
    requires b.Valid() && 0 <= x < b.width && 0 <= y < b.height
    requires a != x || c != y
    ensures Alive(SetCell(b, x, y, v), a, c) == Alive(b, a, c)
  {
    if 0 <= a < b.width && 0 <= c < b.height {
      IndexBounds(b.width, b.height, a, c);
      if Index(b.width, a, c) == Index(b.width, x, y) {
        IndexInjective(b.width, a, c, x, y);
      }
    }
  }

  /** The neighbour count never looks at the cell itself. */
  lemma MooreCountIgnoresSelf(b: GameBoard, x: int, y: int, v: bool)
    requires b.Valid() && 0 <= x < b.width && 0 <= y < b.height
    ensures MooreCount(SetCell(b, x, y, v), x, y) == MooreCount(b, x, y)
  {
    AliveAfterSet(b, x, y, v, x - 1, y - 1);
    AliveAfterSet(b, x, y, v, x, y - 1);
    AliveAfterSet(b, x, y, v, x + 1, y - 1);
    AliveAfterSet(b, x, y, v, x - 1, y);
    AliveAfterSet(b, x, y, v, x + 1, y);
    AliveAfterSet(b, x, y, v, x - 1, y + 1);
    AliveAfterSet(b, x, y, v, x, y + 1);
    AliveAfterSet(b, x, y, v, x + 1, y + 1);
  }

  // ---------------------------------------------------------------------
  // GameBoard::new
  // ---------------------------------------------------------------------

  /** Every seed's index lies inside the field, so the seeding loop does not index past the end. */
  predicate SeedsFit(width: U16, height: U16, seeds: seq<Point>)
  {
    forall k | 0 <= k < |seeds| :: PointIndex(width, seeds[k]) < width * height
  }

  /** Every seed lies on the grid. */
  predicate SeedsOnGrid(width: U16, height: U16, seeds: seq<Point>)
  {
    forall k | 0 <= k < |seeds| :: seeds[k].x < width && seeds[k].y < height
  }

  /** Whether some seed has index `i`. */
  predicate SeededIndex(width: U16, seeds: seq<Point>, i: int)
  {
    exists k :: 0 <= k < |seeds| && PointIndex(width, seeds[k]) == i
  }

  /** The seeding loop of `new`: each seed, in order, sets its cell to true. */
  function SeedCells(width: U16, cells: seq<bool>, seeds: seq<Point>): (r: seq<bool>)
    requires forall k | 0 <= k < |seeds| :: PointIndex(width, seeds[k]) < |cells|
    ensures |r| == |cells|
    ensures forall i | 0 <= i < |r| :: r[i] <==> cells[i] || SeededIndex(width, seeds, i)
    decreases |seeds|
  {
    if |seeds| == 0 then cells
    else
      var r := SeedCells(width, cells[PointIndex(width, seeds[0]) := true], seeds[1..]);
      assert forall i | 0 <= i < |r| :: SeededIndex(width, seeds, i) <==>
          (PointIndex(width, seeds[0]) == i || SeededIndex(width, seeds[1..], i)) by {
        forall i | 0 <= i < |r|
          ensures SeededIndex(width, seeds, i) <==>
            (PointIndex(width, seeds[0]) == i || SeededIndex(width, seeds[1..], i))
        {
          SeededIndexCons(width, seeds, i);
        }
      }
      r
  }

  /** A cell is seeded by a list exactly when the first seed or one of the others names it. */
  lemma SeededIndexCons(width: U16, seeds: seq<Point>, i: int)
    requires |seeds| > 0
    ensures SeededIndex(width, seeds, i) <==>
      (PointIndex(width, seeds[0]) == i || SeededIndex(width, seeds[1..], i))
  {
    if SeededIndex(width, seeds, i) {
      var k :| 0 <= k < |seeds| && PointIndex(width, seeds[k]) == i;
      if k > 0 {
        assert seeds[1..][k - 1] == seeds[k];
      }
    }
    if SeededIndex(width, seeds[1..], i) {
      var k :| 0 <= k < |seeds[1..]| && PointIndex(width, seeds[1..][k]) == i;
      assert seeds[k + 1] == seeds[1..][k];
    }
  }

  /**
   `GameBoard::new`: an all-dead field of `width * height` cells with every
   seed's cell set.
   */
  function New(width: U16, height: U16, initState: seq<Point>): (b: GameBoard)
    requires SeedsFit(width, height, initState)
    ensures b.Valid() && b.width == width && b.height == height
    ensures forall i | 0 <= i < |b.points| :: b.points[i] <==> SeededIndex(width, initState, i)
  {
    GameBoard(width, height, SeedCells(width, seq(width * height, _ => false), initState))
  }

  lemma SeedsOnGridFit(width: U16, height: U16, seeds: seq<Point>)
    requires SeedsOnGrid(width, height, seeds)
    ensures SeedsFit(width, height, seeds)
  {
    forall k | 0 <= k < |seeds|
      ensures PointIndex(width, seeds[k]) < width * height
    {
      IndexBounds(width, height, seeds[k].x, seeds[k].y);
    }
  }

  /**
   With every seed on the grid, a cell of the new board is live exactly when
   some seed names its position.
   */
  lemma NewCellsAreSeeds(width: U16, height: U16, initState: seq<Point>, x: int, y: int)
    requires SeedsOnGrid(width, height, initState)
    requires 0 <= x < width && 0 <= y < height
    ensures SeedsFit(width, height, initState)
      && (Cell(New(width, height, initState), x, y) <==> Point(x, y) in initState)
  {
    SeedsOnGridFit(width, height, initState);
    var b := New(width, height, initState);
    IndexBounds(width, height, x, y);
    if Cell(b, x, y) {
      var k :| 0 <= k < |initState| && PointIndex(width, initState[k]) == Index(width, x, y);
      IndexInjective(width, initState[k].x, initState[k].y, x, y);
      assert initState[k] == Point(x, y);
    }
    if Point(x, y) in initState {
      var k :| 0 <= k < |initState| && initState[k] == Point(x, y);
      assert PointIndex(width, initState[k]) == Index(width, x, y);
    }
  }

  // ---------------------------------------------------------------------
  // GameBoard::count_live_neighbors
  // ---------------------------------------------------------------------

  /** The eight offsets `(i, j)` in the order the nested loops visit them (`(0, 0)` is skipped). */
  const NeighborOffsets: seq<(int, int)> :=
    [(-1, -1), (-1, 0), (-1, 1), (0, -1), (0, 1), (1, -1), (1, 0), (1, 1)]

  /**
   One loop step: the neighbour coordinates are cast to `u16` (so -1 becomes
   65535) and the cell counts only if both fall below the board's size.
   */
  predicate OffsetHit(b: GameBoard, x: U16, y: U16, d: (int, int))
    requires b.Valid()
  {
    var nx := Wrap16(x + d.0);
    var ny := Wrap16(y + d.1);
    nx < b.width && ny < b.height && Cell(b, nx, ny)
  }

  /** The outcome of the eight loop steps, in the order the loops visit the offsets. */
  function Hits(b: GameBoard, x: U16, y: U16): (h: seq<bool>)
    requires b.Valid()
    ensures |h| == |NeighborOffsets|
    ensures forall k | 0 <= k < |h| :: h[k] == OffsetHit(b, x, y, NeighborOffsets[k])
  {
    seq(|NeighborOffsets|, k requires 0 <= k < |NeighborOffsets| => OffsetHit(b, x, y, NeighborOffsets[k]))
  }

  /** `count_live_neighbors`: the number of live cells among the eight neighbours, 0 to 8. */
  function CountLiveNeighbors(b: GameBoard, x: U16, y: U16): (n: nat)
    requires b.Valid()
    ensures n <= 8
  {
    CountTrue(Hits(b, x, y))
  }

  /**
   The `u16` cast never turns an off-grid neighbour into an on-grid one while
   the centre is below 65535: at `x = 0` the offset -1 becomes 65535, which
   is never below a `u16` width.
   */
  lemma OffsetHitIsAlive(b: GameBoard, x: U16, y: U16, d: (int, int))
    requires b.Valid() && x < 0xFFFF && y < 0xFFFF
    requires -1 <= d.0 <= 1 && -1 <= d.1 <= 1
    ensures OffsetHit(b, x, y, d) == Alive(b, x + d.0, y + d.1)
  {
  }

  /**
   For every centre below 65535 (in particular every cell of the grid) the
   engine's count equals the signed, range-checked Moore count: off-grid
   neighbours are dead and nothing wraps around.
   */
  lemma CountMatchesMoore(b: GameBoard, x: U16, y: U16)
    requires b.Valid() && x < 0xFFFF && y < 0xFFFF
    ensures CountLiveNeighbors(b, x, y) == MooreCount(b, x, y)
  {
    var h := Hits(b, x, y);
    CountTrueEight(h);
    HitsAreAlive(b, x, y);
  }

  lemma HitsAreAlive(b: GameBoard, x: U16, y: U16)
    requires b.Valid() && x < 0xFFFF && y < 0xFFFF
    ensures forall k | 0 <= k < |NeighborOffsets| ::
      Hits(b, x, y)[k] == Alive(b, x + NeighborOffsets[k].0, y + NeighborOffsets[k].1)
  {
    forall k | 0 <= k < |NeighborOffsets|
      ensures Hits(b, x, y)[k] == Alive(b, x + NeighborOffsets[k].0, y + NeighborOffsets[k].1)
    {
      OffsetHitIsAlive(b, x, y, NeighborOffsets[k]);
    }
  }

  /** The engine's count on the grid does not depend on the cell itself. */
  lemma CountIgnoresSelf(b: GameBoard, x: U16, y: U16, v: bool)
    requires b.Valid() && x < b.width && y < b.height
    ensures CountLiveNeighbors(SetCell(b, x, y, v), x, y) == CountLiveNeighbors(b, x, y)
  {
    CountMatchesMoore(b, x, y);
    CountMatchesMoore(SetCell(b, x, y, v), x, y);
    MooreCountIgnoresSelf(b, x, y, v);
  }

  // ---------------------------------------------------------------------
  // GameBoard::next_state
  // ---------------------------------------------------------------------

  /** The `matches!` table of `next_state`: `(true, 2) | (true, 3) | (false, 3)` survive or are born. */
  function Transition(alive: bool, count: nat): (next: bool)
    ensures next == ConwayRule(alive, count)
  {
    match (alive, count)
    case (true, 2) => true
    case (true, 3) => true
    case (false, 3) => true
    case _ => false
  }

  /** The new value of the cell at enumeration index `idx`, read from the old field only. */
  function StepCell(b: GameBoard, idx: int): bool
    requires b.Valid() && 0 <= idx < |b.points|
  {
    IndexDivMod(b.width, b.height, idx);
    Transition(b.points[idx], CountLiveNeighbors(b, idx % b.width, idx / b.width))
  }

  lemma StepCellRule(b: GameBoard, x: int, y: int)
    requires b.Valid() && 0 <= x < b.width && 0 <= y < b.height
    ensures 0 <= Index(b.width, x, y) < |b.points|
    ensures StepCell(b, Index(b.width, x, y)) == ConwayRule(Cell(b, x, y), MooreCount(b, x, y))
  {
    var idx := Index(b.width, x, y);
    IndexBounds(b.width, b.height, x, y);
    IndexDivMod(b.width, b.height, idx);
    IndexInjective(b.width, idx % b.width, idx / b.width, x, y);
    CountMatchesMoore(b, x, y);
  }

  /**
   `next_state`: the row-major enumeration of every `(x, y)` builds a fresh
   field from the old one, which it then replaces wholesale.
   */
  function NextState(b: GameBoard): (r: GameBoard)
    requires b.Valid()
    ensures r.Valid() && r.width == b.width && r.height == b.height
    ensures forall x, y | 0 <= x < b.width && 0 <= y < b.height ::
      Cell(r, x, y) == ConwayRule(Cell(b, x, y), MooreCount(b, x, y))
  {
    var r := GameBoard(b.width, b.height,
      seq(|b.points|, idx requires 0 <= idx < |b.points| => StepCell(b, idx)));
    assert forall x, y | 0 <= x < b.width && 0 <= y < b.height ::
      Cell(r, x, y) == ConwayRule(Cell(b, x, y), MooreCount(b, x, y)) by {
      forall x, y | 0 <= x < b.width && 0 <= y < b.height
        ensures Cell(r, x, y) == ConwayRule(Cell(b, x, y), MooreCount(b, x, y))
      {
        StepCellRule(b, x, y);
      }
    }
    r
  }

  /**
   A cell's next value depends only on the old values of its 3x3 block: two
   boards that agree there agree on that cell after a step.
   */
  lemma NextStateIsLocal(b1: GameBoard, b2: GameBoard, x: int, y: int)
    requires b1.Valid() && b2.Valid()
    requires b1.width == b2.width && b1.height == b2.height
    requires 0 <= x < b1.width && 0 <= y < b1.height
    requires forall a, c | x - 1 <= a <= x + 1 && y - 1 <= c <= y + 1 :: Alive(b1, a, c) == Alive(b2, a, c)
    ensures Cell(NextState(b1), x, y) == Cell(NextState(b2), x, y)
  {
    assert Alive(b1, x, y) == Alive(b2, x, y);
    assert MooreCount(b1, x, y) == MooreCount(b2, x, y);
  }

  // ---------------------------------------------------------------------
  // The source's u16 index
  // ---------------------------------------------------------------------

  /** The `u16` index of an on-grid position still lies inside the field, wrapped or not. */
  lemma WrappedIndexInside(width: U16, height: U16, x: U16, y: U16)
    requires x < width && y < height
    ensures WrappedIndex(width, x, y) < width * height
  {
    IndexBounds(width, height, x, y);
  }

  /** One loop step of `count_live_neighbors` as written: the cell is read at the `u16` index. */
  predicate OffsetHitAsWritten(b: GameBoard, x: U16, y: U16, d: (int, int))
    requires b.Valid()
  {
    var nx := Wrap16(x + d.0);
    var ny := Wrap16(y + d.1);
    nx < b.width && ny < b.height
    && (WrappedIndexInside(b.width, b.height, nx, ny); b.points[WrappedIndex(b.width, nx, ny)])
  }

  /** A loop step whose neighbour lands on the grid reads the cell at that neighbour's `u16` index. */
  lemma OffsetHitAsWrittenAt(b: GameBoard, x: U16, y: U16, d: (int, int), nx: U16, ny: U16)
    requires b.Valid() && nx == Wrap16(x + d.0) && ny == Wrap16(y + d.1)
    requires nx < b.width && ny < b.height
    ensures WrappedIndex(b.width, nx, ny) < |b.points|
    ensures OffsetHitAsWritten(b, x, y, d) == b.points[WrappedIndex(b.width, nx, ny)]
  {
    WrappedIndexInside(b.width, b.height, nx, ny);
  }

  function HitsAsWritten(b: GameBoard, x: U16, y: U16): (h: seq<bool>)
    requires b.Valid()
    ensures |h| == |NeighborOffsets|
    ensures forall k | 0 <= k < |h| :: h[k] == OffsetHitAsWritten(b, x, y, NeighborOffsets[k])
  {
    seq(|NeighborOffsets|, k requires 0 <= k < |NeighborOffsets| => OffsetHitAsWritten(b, x, y, NeighborOffsets[k]))
  }

  /** `count_live_neighbors` with its index computed in `u16`, as the source does. */
  function CountAsWritten(b: GameBoard, x: U16, y: U16): (n: nat)
    requires b.Valid()
    ensures n <= 8
  {
    CountTrue(HitsAsWritten(b, x, y))
  }

  /** On a board of at most 65536 cells the `u16` index reads the same cells, so the counts agree. */
  lemma CountAsWrittenExact(b: GameBoard, x: U16, y: U16)
    requires b.Valid() && b.width * b.height <= 0x1_0000
    ensures CountAsWritten(b, x, y) == CountLiveNeighbors(b, x, y)
  {
    forall k | 0 <= k < |NeighborOffsets|
      ensures HitsAsWritten(b, x, y)[k] == Hits(b, x, y)[k]
    {
      var nx := Wrap16(x + NeighborOffsets[k].0);
      var ny := Wrap16(y + NeighborOffsets[k].1);
      if nx < b.width && ny < b.height {
        WrappedIndexExact(b.width, b.height, nx, ny);
      }
    }
    assert HitsAsWritten(b, x, y) == Hits(b, x, y);
  }

  /** A board 512 cells wide and 129 high, 66048 cells in all, whose only live cell is `(1, 0)`. */
  function MisreadBoard(): (b: GameBoard)
    ensures b.Valid() && b.width == 512 && b.height == 129
    ensures forall i | 0 <= i < |b.points| :: b.points[i] <==> i == 1
  {
    GameBoard(512, 129, seq(512 * 129, i => i == 1))
  }

  /**
   On that board the cell `(0, 128)` has no live neighbour, but the source's
   count reads neighbour `(1, 128)` at index 65537, which wraps to 1, the
   index of `(1, 0)`, and so reports one.
   */
  lemma CountAsWrittenMisreads()
    ensures CountLiveNeighbors(MisreadBoard(), 0, 128) == 0
    ensures CountAsWritten(MisreadBoard(), 0, 128) == 1
  {
    var b := MisreadBoard();
    CountMatchesMoore(b, 0, 128);
    MisreadHits();
    CountTrueEight(HitsAsWritten(b, 0, 128));
  }

  /** The eight loop steps of the source's count at `(0, 128)` on that board: only offset `(1, 0)` hits. */
  lemma MisreadHits()
    ensures HitsAsWritten(MisreadBoard(), 0, 128) == [false, false, false, false, false, false, true, false]
  {
    var b := MisreadBoard();
    var h := HitsAsWritten(b, 0, 128);
    // the offsets with i = -1 wrap the column to 65535, and those with j = 1 leave the grid
    assert !h[0] && !h[1] && !h[2] && !h[4] && !h[7];
    assert !h[3] by {
      assert Wrap16(0 + 127 * 512) == 65024;
      OffsetHitAsWrittenAt(b, 0, 128, (0, -1), 0, 127);
    }
    assert !h[5] by {
      assert Wrap16(1 + 127 * 512) == 65025;
      OffsetHitAsWrittenAt(b, 0, 128, (1, -1), 1, 127);
    }
    assert h[6] by {
      assert Wrap16(1 + 128 * 512) == 1;
      OffsetHitAsWrittenAt(b, 0, 128, (1, 0), 1, 128);
    }
  }

  /** The new value of the cell at `idx` when counts are read at the `u16` index. */
  function StepCellAsWritten(b: GameBoard, idx: int): bool
    requires b.Valid() && 0 <= idx < |b.points|
  {
    IndexDivMod(b.width, b.height, idx);
    Transition(b.points[idx], CountAsWritten(b, idx % b.width, idx / b.width))
  }

  /** `next_state` as written, reading neighbours at the `u16` index. */
  function NextStateAsWritten(b: GameBoard): (r: GameBoard)
    requires b.Valid()
    ensures r.Valid() && r.width == b.width && r.height == b.height
  {
    GameBoard(b.width, b.height, seq(|b.points|, idx requires 0 <= idx < |b.points| => StepCellAsWritten(b, idx)))
  }

  /** On a board of at most 65536 cells `next_state` as written is the corrected step. */
  lemma NextStateAsWrittenExact(b: GameBoard)
    requires b.Valid() && b.width * b.height <= 0x1_0000
    ensures NextStateAsWritten(b) == NextState(b)
  {
    forall idx | 0 <= idx < |b.points|
      ensures StepCellAsWritten(b, idx) == StepCell(b, idx)
    {
      IndexDivMod(b.width, b.height, idx);
      CountAsWrittenExact(b, idx % b.width, idx / b.width);
    }
    assert NextStateAsWritten(b).points == NextState(b).points;
  }
}
