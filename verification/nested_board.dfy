/**
 The nested-vector engine: a `GameOfLifeBoard` holds one vector of cells
 per row, `state[row][col]`. `Tick` copies the state, evaluates every cell
 against the original, and assigns the copy back.
 */
module NestedBoard {
  import opened Life

  datatype Board = Board(state: seq<seq<bool>>) {
    /** `Rows()`: the number of row vectors, the `rows` of every shape the board has. */
    function Rows(): (n: nat)
      ensures n == 0 <==> state == []
      ensures forall rows, cols | Shaped(rows, cols) :: rows == n
    {
      |state|
    }

    /**
     `Cols()`: the length of row 0, so it only has a meaning when there is a
     row. It is the length of every row exactly when the board is rectangular.
     */
    function Cols(): (n: nat)
      requires Rows() > 0
      ensures Rectangular() <==> forall i | 0 <= i < Rows() :: |state[i]| == n
    {
      |state[0]|
    }

    /** Every row has the length of row 0. */
    predicate Rectangular()
    {
      forall i | 0 <= i < |state| :: |state[i]| == |state[0]|
    }

    /** `rows` row vectors of `cols` cells each. */
    predicate Shaped(rows: nat, cols: nat)
    {
      |state| == rows && forall i | 0 <= i < |state| :: |state[i]| == cols
    }
  }

  /** The constructor: `numRows` rows of `numCols` cells, every cell dead. */
  function Construct(numRows: nat, numCols: nat): (b: Board)
    ensures b.Shaped(numRows, numCols) && b.Rectangular()
    ensures numRows > 0 ==> b.Rows() == numRows && b.Cols() == numCols
    ensures forall i, j | 0 <= i < numRows && 0 <= j < numCols :: !b.state[i][j]
  {
    Board(seq(numRows, _ => seq(numCols, _ => false)))
  }

  /** Whether `(row, col)` is on the board and live; positions off the board count as dead. */
  predicate LiveAt(b: Board, row: int, col: int)
    requires b.Rectangular()
  {
    0 <= row < b.Rows() && 0 <= col < |b.state[0]| && b.state[row][col]
  }

  /**
   The eight `(row, col)` offsets in the order of the source's direction
   table: right, down, left, up, then the four diagonals.
   */
  const Directions: seq<(int, int)> :=
    [(0, 1), (1, 0), (0, -1), (-1, 0), (1, 1), (1, -1), (-1, 1), (-1, -1)]

  /** The direction table holds exactly the Moore offsets: every step of at most one, but not `(0, 0)`. */
  lemma DirectionsAreMoore(d: (int, int))
    ensures d in Directions <==> d != (0, 0) && -1 <= d.0 <= 1 && -1 <= d.1 <= 1
  {
  }

  /** One pass of the loop: the neighbour counts when it lies inside `[0, Rows) x [0, Cols)` and is live. */
  predicate DirectionHit(b: Board, row: int, col: int, d: (int, int))
    requires b.Rectangular() && b.Rows() > 0
  {
    var neighborRow := row + d.0;
    var neighborCol := col + d.1;
    0 <= neighborRow < b.Rows() && 0 <= neighborCol < b.Cols() && b.state[neighborRow][neighborCol]
  }

  /** The outcome of the loop's eight passes, in the order of the direction table. */
  function Hits(b: Board, row: int, col: int): (h: seq<bool>)
    requires b.Rectangular() && b.Rows() > 0
    ensures |h| == |Directions|
    ensures forall k | 0 <= k < |h| :: h[k] == DirectionHit(b, row, col, Directions[k])
  {
    seq(|Directions|, k requires 0 <= k < |Directions| => DirectionHit(b, row, col, Directions[k]))
  }

  /** `CountLiveNeighbors`: the number of live cells among the eight directions, 0 to 8. */
  function CountLiveNeighbors(b: Board, row: nat, col: nat): (n: nat)
    requires b.Rectangular() && b.Rows() > 0
    ensures n <= 8
  {
    CountTrue(Hits(b, row, col))
  }

  /** The live cells of the 3x3 block around `(row, col)`, the centre left out, in reading order. */
  function NeighborSum(b: Board, row: int, col: int): nat
    requires b.Rectangular()
  {
    Indicator(LiveAt(b, row - 1, col - 1)) + Indicator(LiveAt(b, row - 1, col)) + Indicator(LiveAt(b, row - 1, col + 1))
    + Indicator(LiveAt(b, row, col - 1))                                         + Indicator(LiveAt(b, row, col + 1))
    + Indicator(LiveAt(b, row + 1, col - 1)) + Indicator(LiveAt(b, row + 1, col)) + Indicator(LiveAt(b, row + 1, col + 1))
  }

  /**
   Whatever order the direction table visits them in, the count is the
   number of live cells of the 3x3 block around the cell, the cell itself
   excluded and off-board positions dead.
   */
  lemma CountIsNeighborSum(b: Board, row: nat, col: nat)
    requires b.Rectangular() && b.Rows() > 0
    ensures CountLiveNeighbors(b, row, col) == NeighborSum(b, row, col)
  {
    CountTrueEight(Hits(b, row, col));
    HitsAreLive(b, row, col);
  }

  lemma HitsAreLive(b: Board, row: nat, col: nat)
    requires b.Rectangular() && b.Rows() > 0
    ensures forall k | 0 <= k < |Directions| ::
      Hits(b, row, col)[k] == LiveAt(b, row + Directions[k].0, col + Directions[k].1)
  {
  }

  /** The board one generation on: every cell follows Conway's rule applied to the old board. */
  function Successor(b: Board): Board
    requires b.Rectangular()
  {
    if b.Rows() == 0 then b
    else
      Board(seq(b.Rows(), i requires 0 <= i < b.Rows() =>
        seq(b.Cols(), j requires 0 <= j < b.Cols() =>
          ConwayRule(b.state[i][j], CountLiveNeighbors(b, i, j)))))
  }

  lemma SuccessorShape(b: Board)
    requires b.Rectangular()
    ensures Successor(b).Rows() == b.Rows() && Successor(b).Rectangular()
    ensures b.Rows() > 0 ==> Successor(b).Shaped(b.Rows(), b.Cols())
  {
  }

  lemma SuccessorCell(b: Board, i: int, j: int)
    requires b.Rectangular() && 0 <= i < b.Rows() && 0 <= j < b.Cols()
    ensures Successor(b).Rows() == b.Rows() && |Successor(b).state[i]| == b.Cols()
    ensures Successor(b).state[i][j] == ConwayRule(b.state[i][j], CountLiveNeighbors(b, i, j))
  {
  }

  /**
   `Tick`: copy the state into `tmp`, walk every cell reading only the
   original state and writing only `tmp`, then replace the state with `tmp`.
   */
  method Tick(b: Board) returns (r: Board)
    requires b.Rectangular()
    ensures r == Successor(b)
    ensures r.Rows() == b.Rows() && r.Rectangular()
    ensures b.Rows() > 0 ==> r.Cols() == b.Cols()
  {
    ghost var next := Successor(b).state;
    SuccessorShape(b);
    var tmp := b.state;
    var i := 0;
    while i < b.Rows()
      invariant 0 <= i <= b.Rows()
      invariant |tmp| == b.Rows()
      invariant forall k | 0 <= k < i :: tmp[k] == next[k]
      invariant forall k | i <= k < b.Rows() :: tmp[k] == b.state[k]
    {
      var row := TickRow(b, i, tmp[i]);
      tmp := tmp[i := row];
      i := i + 1;
    }
    assert tmp == next;
    r := Board(tmp);
  }

  /**
   The inner loop of `Tick` over row `i`: `row` is that row of the copy, and
   each cell is decided from the original state alone.
   */
  method TickRow(b: Board, i: nat, row: seq<bool>) returns (r: seq<bool>)
    requires b.Rectangular() && i < b.Rows()
    requires row == b.state[i]
    ensures r == Successor(b).state[i]
  {
    SuccessorShape(b);
    ghost var next := Successor(b).state[i];
    r := row;
    var j := 0;
    while j < b.Cols()
      invariant 0 <= j <= b.Cols() && |r| == b.Cols()
      invariant forall l | 0 <= l < j :: r[l] == next[l]
      invariant forall l | j <= l < b.Cols() :: r[l] == b.state[i][l]
    {
      SuccessorCell(b, i, j);
      var numLiveNeighbors := CountLiveNeighbors(b, i, j);
      // `cell` is `tmp[i][j]`, which still holds the original value
      var cell := r[j];
      if b.state[i][j] {
        if numLiveNeighbors < 2 {
          // death by underpopulation
          cell := false;
        } else if numLiveNeighbors > 3 {
          // death by overpopulation
          cell := false;
        }
      } else if numLiveNeighbors == 3 {
        // life by reproduction
        cell := true;
      }
      assert cell == next[j];
      r := r[j := cell];
      j := j + 1;
    }
  }

  /** A freshly constructed, all-dead board never changes. */
  lemma DeadBoardIsStill(numRows: nat, numCols: nat)
    ensures Successor(Construct(numRows, numCols)) == Construct(numRows, numCols)
  {
    var b := Construct(numRows, numCols);
    if numRows > 0 {
      var s := Successor(b);
      forall i | 0 <= i < numRows
        ensures s.state[i] == b.state[i]
      {
        forall j | 0 <= j < numCols
          ensures s.state[i][j] == b.state[i][j]
        {
          CountTrueNone(Hits(b, i, j));
        }
      }
    }
  }
}
