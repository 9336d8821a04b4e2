/**
 The two engines side by side. A flat `GameBoard` and a nested
 `GameOfLifeBoard` describe the same field when `points[x + y*width]` is
 `state[y][x]` for every cell: the flat grid's `x` is the nested board's
 column and its `y` the row. Under that correspondence the engines seed
 the same cells, count the same neighbours and step to the same successor.
 */
module Agreement {
  import opened Life
  import FlatGrid
  import NestedBoard
  import Seeding

  /** `g` and `b` have the same size and the same cells, with `g`'s `(x, y)` stored at `b.state[y][x]`. */
  predicate Corresponds(g: FlatGrid.GameBoard, b: NestedBoard.Board)
  {
    && g.Valid()
    && b.Shaped(g.height, g.width)
    && forall x, y | 0 <= x < g.width && 0 <= y < g.height :: FlatGrid.Cell(g, x, y) == b.state[y][x]
  }

  lemma CorrespondsRectangular(g: FlatGrid.GameBoard, b: NestedBoard.Board)
    requires Corresponds(g, b)
    ensures b.Rectangular() && b.Rows() == g.height
    ensures b.Rows() > 0 ==> b.Cols() == g.width
  {
  }

  /** Off-grid positions are dead on both sides, and on-grid ones carry the same value. */
  lemma AliveIsLiveAt(g: FlatGrid.GameBoard, b: NestedBoard.Board, x: int, y: int)
    requires Corresponds(g, b)
    ensures b.Rectangular()
    ensures FlatGrid.Alive(g, x, y) == NestedBoard.LiveAt(b, y, x)
  {
    CorrespondsRectangular(g, b);
  }

  /** The reference neighbour counts of the two representations coincide. */
  lemma MooreCountIsNeighborSum(g: FlatGrid.GameBoard, b: NestedBoard.Board, x: int, y: int)
    requires Corresponds(g, b)
    ensures b.Rectangular()
    ensures FlatGrid.MooreCount(g, x, y) == NestedBoard.NeighborSum(b, y, x)
  {
    AliveIsLiveAt(g, b, x - 1, y - 1);
    AliveIsLiveAt(g, b, x, y - 1);
    AliveIsLiveAt(g, b, x + 1, y - 1);
    AliveIsLiveAt(g, b, x - 1, y);
    AliveIsLiveAt(g, b, x + 1, y);
    AliveIsLiveAt(g, b, x - 1, y + 1);
    AliveIsLiveAt(g, b, x, y + 1);
    AliveIsLiveAt(g, b, x + 1, y + 1);
  }

  /**
   `count_live_neighbors(x, y)` and `CountLiveNeighbors(y, x)` return the same
   number for every cell, although one visits the neighbours through `u16`
   wrap-around in row order and the other through signed bounds checks in
   its own direction order.
   */
  lemma NeighborCountsAgree(g: FlatGrid.GameBoard, b: NestedBoard.Board, x: U16, y: U16)
    requires Corresponds(g, b)
    requires x < g.width && y < g.height
    ensures b.Rectangular() && b.Rows() > 0
    ensures FlatGrid.CountLiveNeighbors(g, x, y) == NestedBoard.CountLiveNeighbors(b, y, x)
  {
    CorrespondsRectangular(g, b);
    assert x < 0xFFFF && y < 0xFFFF;
    FlatGrid.CountMatchesMoore(g, x, y);
    NestedBoard.CountIsNeighborSum(b, y, x);
    MooreCountIsNeighborSum(g, b, x, y);
  }

  /** One step of each engine keeps the correspondence: `next_state` and `Tick` compute the same generation. */
  lemma TickAgreesWithNextState(g: FlatGrid.GameBoard, b: NestedBoard.Board)
    requires Corresponds(g, b)
    ensures b.Rectangular()
    ensures Corresponds(FlatGrid.NextState(g), NestedBoard.Successor(b))
  {
    CorrespondsRectangular(g, b);
    var g' := FlatGrid.NextState(g);
    var b' := NestedBoard.Successor(b);
    NestedBoard.SuccessorShape(b);
    assert b'.Shaped(g'.height, g'.width);
    forall x, y | 0 <= x < g'.width && 0 <= y < g'.height
      ensures FlatGrid.Cell(g', x, y) == b'.state[y][x]
    {
      NestedBoard.SuccessorCell(b, y, x);
      NestedBoard.CountIsNeighborSum(b, y, x);
      MooreCountIsNeighborSum(g, b, x, y);
    }
  }

  /** The flat board after `n` calls of `next_state`. */
  function Generations(g: FlatGrid.GameBoard, n: nat): (r: FlatGrid.GameBoard)
    requires g.Valid()
    ensures r.Valid() && r.width == g.width && r.height == g.height
    decreases n
  {
    if n == 0 then g else Generations(FlatGrid.NextState(g), n - 1)
  }

  /** The nested board after `n` calls of `Tick`. */
  function Ticks(b: NestedBoard.Board, n: nat): (r: NestedBoard.Board)
    requires b.Rectangular()
    ensures r.Rectangular() && r.Rows() == b.Rows()
    ensures b.Rows() > 0 ==> r.Cols() == b.Cols()
    decreases n
  {
    NestedBoard.SuccessorShape(b);
    if n == 0 then b else Ticks(NestedBoard.Successor(b), n - 1)
  }

  /** Started from corresponding boards, the two engines agree on every later generation. */
  lemma {:induction false} AgreeForever(g: FlatGrid.GameBoard, b: NestedBoard.Board, n: nat)
    requires Corresponds(g, b)
    ensures b.Rectangular()
    ensures Corresponds(Generations(g, n), Ticks(b, n))
    decreases n
  {
    CorrespondsRectangular(g, b);
    if n > 0 {
      TickAgreesWithNextState(g, b);
      AgreeForever(FlatGrid.NextState(g), NestedBoard.Successor(b), n - 1);
    }
  }

  // ---------------------------------------------------------------------
  // The flat engine as written, with its u16 cell index
  // ---------------------------------------------------------------------

  /**
   On a board of at most 65536 cells the source's `count_live_neighbors`,
   whose index `x + y * width` is a `u16`, still counts what the nested
   engine counts.
   */
  lemma SourceCountsAgree(g: FlatGrid.GameBoard, b: NestedBoard.Board, x: U16, y: U16)
    requires Corresponds(g, b) && g.width * g.height <= 0x1_0000
    requires x < g.width && y < g.height
    ensures b.Rectangular() && b.Rows() > 0
    ensures FlatGrid.CountAsWritten(g, x, y) == NestedBoard.CountLiveNeighbors(b, y, x)
  {
    FlatGrid.CountAsWrittenExact(g, x, y);
    NeighborCountsAgree(g, b, x, y);
  }

  /** On a board of at most 65536 cells, `next_state` as written and `Tick` compute the same generation. */
  lemma SourceTickAgrees(g: FlatGrid.GameBoard, b: NestedBoard.Board)
    requires Corresponds(g, b) && g.width * g.height <= 0x1_0000
    ensures b.Rectangular()
    ensures Corresponds(FlatGrid.NextStateAsWritten(g), NestedBoard.Successor(b))
  {
    FlatGrid.NextStateAsWrittenExact(g);
    TickAgreesWithNextState(g, b);
  }

  /** The flat board after `n` calls of `next_state` as written. */
  function SourceGenerations(g: FlatGrid.GameBoard, n: nat): (r: FlatGrid.GameBoard)
    requires g.Valid()
    ensures r.Valid() && r.width == g.width && r.height == g.height
    decreases n
  {
    if n == 0 then g else SourceGenerations(FlatGrid.NextStateAsWritten(g), n - 1)
  }

  /** On a board of at most 65536 cells the engines as written agree on every later generation. */
  lemma {:induction false} SourceAgreeForever(g: FlatGrid.GameBoard, b: NestedBoard.Board, n: nat)
    requires Corresponds(g, b) && g.width * g.height <= 0x1_0000
    ensures b.Rectangular()
    ensures Corresponds(SourceGenerations(g, n), Ticks(b, n))
    decreases n
  {
    CorrespondsRectangular(g, b);
    if n > 0 {
      SourceTickAgrees(g, b);
      SourceAgreeForever(FlatGrid.NextStateAsWritten(g), NestedBoard.Successor(b), n - 1);
    }
  }

  /** The nested counterpart of `FlatGrid.MisreadBoard`: 129 rows of 512 cells, only row 0, column 1 live. */
  function MisreadNested(): (b: NestedBoard.Board)
    ensures Corresponds(FlatGrid.MisreadBoard(), b)
  {
    var g := FlatGrid.MisreadBoard();
    var b := NestedBoard.Board(seq(129, i => seq(512, j => i == 0 && j == 1)));
    assert forall x, y | 0 <= x < 512 && 0 <= y < 129 :: FlatGrid.Cell(g, x, y) == b.state[y][x] by {
      forall x, y | 0 <= x < 512 && 0 <= y < 129
        ensures FlatGrid.Cell(g, x, y) == b.state[y][x]
      {
        if FlatGrid.Index(512, x, y) == 1 {
          FlatGrid.IndexInjective(512, x, y, 1, 0);
        }
      }
    }
    b
  }

  /**
   Beyond 65536 cells the engines as written disagree: on corresponding
   boards of 512 x 129 cells, the source's count at `(0, 128)` is 1 and
   the nested engine's count at row 128, column 0 is 0.
   */
  lemma SourceDisagreesBeyondBound()
    ensures var g := FlatGrid.MisreadBoard();
      && g.width * g.height > 0x1_0000
      && Corresponds(g, MisreadNested())
      && FlatGrid.CountAsWritten(g, 0, 128) == 1
      && NestedBoard.CountLiveNeighbors(MisreadNested(), 128, 0) == 0
  {
    FlatGrid.CountAsWrittenMisreads();
    NeighborCountsAgree(FlatGrid.MisreadBoard(), MisreadNested(), 0, 128);
  }

  /** The flat engine's seeds as the nested engine's positions, coordinate for coordinate. */
  function Positions(points: seq<FlatGrid.Point>): (r: seq<Seeding.Position2D>)
    ensures |r| == |points|
    ensures forall k | 0 <= k < |points| :: r[k].x == points[k].x && r[k].y == points[k].y
  {
    seq(|points|, k requires 0 <= k < |points| => Seeding.Position2D(points[k].x, points[k].y))
  }

  /**
   Seeding agrees: `GameBoard::new(width, height, points)` and a
   `height` x `width` board passed through `InitializeBoard` with the same
   positions give corresponding boards, and the nested engine does not
   throw because every seed lies on the grid.
   */
  lemma SeedingAgrees(width: U16, height: U16, points: seq<FlatGrid.Point>)
    requires FlatGrid.SeedsOnGrid(width, height, points)
    ensures FlatGrid.SeedsFit(width, height, points)
    ensures |points| > 0 ==> height > 0
    ensures var seeded := Seeding.InitializeBoard(Positions(points), NestedBoard.Construct(height, width));
      && seeded.failedAt.None?
      && Corresponds(FlatGrid.New(width, height, points), seeded.board)
  {
    FlatGrid.SeedsOnGridFit(width, height, points);
    if |points| > 0 {
      assert points[0].y < height;
    }
    var empty := NestedBoard.Construct(height, width);
    var positions := Positions(points);
    var seeded := Seeding.InitializeBoard(positions, empty);
    assert seeded.failedAt.None? by {
      forall k | 0 <= k < |positions|
        ensures Seeding.InBounds(empty, positions[k])
      {
        assert points[k].x < width && points[k].y < height;
      }
    }
    assert positions[..|positions|] == positions;
    var g := FlatGrid.New(width, height, points);
    forall x, y | 0 <= x < width && 0 <= y < height
      ensures FlatGrid.Cell(g, x, y) == seeded.board.state[y][x]
    {
      FlatGrid.NewCellsAreSeeds(width, height, points, x, y);
      if FlatGrid.Point(x, y) in points {
        var k :| 0 <= k < |points| && points[k] == FlatGrid.Point(x, y);
        assert positions[k] == Seeding.Position2D(x, y);
      }
      if Seeding.Marked(positions, y, x) {
        var k :| 0 <= k < |positions| && positions[k] == Seeding.Position2D(x, y);
        assert points[k] == FlatGrid.Point(x, y);
      }
    }
  }
}
