/**
 The nested-vector program's start-up: `LoadInitState` turns the lines of
 the pattern file into positions, one per line, and `InitializeBoard` marks
 each position live on the board, throwing at the first one outside it.
 */
module Seeding {
  import opened Life
  import opened NestedBoard

  /** `Position2D`: `x` is the column and `y` the row. */
  datatype Position2D = Position2D(x: nat, y: nat)

  /**
   What `sscanf(line, "(%zu, %zu)", &pos.y, &pos.x)` achieved on one line:
   no conversion, only the first number, or both numbers.
   */
  datatype Scan = NoConversion | FirstOnly(first: nat) | BothConversions(first: nat, second: nat)

  /** The effect of one `sscanf` call on `pos`: the first number lands in `y`, the second in `x`. */
  function ApplyScan(pos: Position2D, scan: Scan): (r: Position2D)
    ensures scan.BothConversions? ==> r == Position2D(scan.second, scan.first)
    ensures scan.FirstOnly? ==> r.y == scan.first && r.x == pos.x
    ensures scan.NoConversion? ==> r == pos
  {
    match scan
    case NoConversion => pos
    case FirstOnly(a) => pos.(y := a)
    case BothConversions(a, b) => Position2D(b, a)
  }

  /** The value `pos` holds before line `k` is scanned: `(0, 0)` before the first line, then the previous result. */
  function Before(initState: seq<Position2D>, k: nat): Position2D
    requires k <= |initState|
  {
    if k == 0 then Position2D(0, 0) else initState[k - 1]
  }

  /** The last line at or before `k` on which both numbers converted, or -1 when there is none. */
  function LastFull(lines: seq<Scan>, k: int): (r: int)
    requires -1 <= k < |lines|
    ensures -1 <= r <= k
    ensures r >= 0 ==> lines[r].BothConversions?
    ensures forall j | r < j <= k :: !lines[j].BothConversions?
    decreases k + 1
  {
    if k < 0 then -1 else if lines[k].BothConversions? then k else LastFull(lines, k - 1)
  }

  /** The last line at or before `k` on which at least the first number converted, or -1 when there is none. */
  function LastConverting(lines: seq<Scan>, k: int): (r: int)
    requires -1 <= k < |lines|
    ensures -1 <= r <= k
    ensures r >= 0 ==> !lines[r].NoConversion?
    ensures forall j | r < j <= k :: lines[j].NoConversion?
    decreases k + 1
  {
    if k < 0 then -1 else if !lines[k].NoConversion? then k else LastConverting(lines, k - 1)
  }

  /** The column after line `k`: the second number of the last fully scanned line, or 0. */
  function ScannedX(lines: seq<Scan>, k: int): nat
    requires -1 <= k < |lines|
  {
    var j := LastFull(lines, k);
    if j < 0 then 0 else lines[j].second
  }

  /** The row after line `k`: the first number of the last line that converted anything, or 0. */
  function ScannedY(lines: seq<Scan>, k: int): nat
    requires -1 <= k < |lines|
  {
    var j := LastConverting(lines, k);
    if j < 0 then 0 else lines[j].first
  }

  /**
   Unrolling the loop's recurrence: the position pushed for line `k` holds
   the second number of the last fully scanned line as `x` and the first
   number of the last line that converted anything as `y`, each 0 when
   there was no such line.
   */
  lemma {:induction false} ScannedPosition(lines: seq<Scan>, initState: seq<Position2D>, k: nat)
    requires |initState| == |lines|
    requires forall i | 0 <= i < |lines| :: initState[i] == ApplyScan(Before(initState, i), lines[i])
    requires k < |lines|
    ensures initState[k] == Position2D(ScannedX(lines, k), ScannedY(lines, k))
    decreases k
  {
    if k > 0 {
      ScannedPosition(lines, initState, k - 1);
    }
  }

  /**
   The line loop of `LoadInitState`: one position is pushed for every line.
   Because `pos` lives outside the loop, a line that does not fully convert
   keeps what the previous line left in it.
   */
  method LoadInitState(lines: seq<Scan>) returns (initState: seq<Position2D>)
    ensures |initState| == |lines|
    ensures forall k | 0 <= k < |lines| :: initState[k] == ApplyScan(Before(initState, k), lines[k])
    ensures forall k | 0 <= k < |lines| && lines[k].BothConversions? ::
      initState[k] == Position2D(lines[k].second, lines[k].first)
    ensures forall k | 0 <= k < |lines| && lines[k].NoConversion? :: initState[k] == Before(initState, k)
    ensures forall k | 0 <= k < |lines| :: initState[k] == Position2D(ScannedX(lines, k), ScannedY(lines, k))
  {
    var pos := Position2D(0, 0);
    initState := [];
    var n := 0;
    while n < |lines|
      invariant 0 <= n <= |lines| && |initState| == n
      invariant pos == Before(initState, n)
      invariant forall k | 0 <= k < n :: initState[k] == ApplyScan(Before(initState, k), lines[k])
    {
      pos := ApplyScan(pos, lines[n]);
      initState := initState + [pos];
      n := n + 1;
    }
    forall k | 0 <= k < |lines|
      ensures initState[k] == Position2D(ScannedX(lines, k), ScannedY(lines, k))
    {
      ScannedPosition(lines, initState, k);
    }
  }

  /** Whether `pos` lies inside `Cols()` x `Rows()`. */
  predicate InBounds(b: Board, pos: Position2D)
    requires b.Rows() > 0
  {
    pos.x < b.Cols() && pos.y < b.Rows()
  }

  /** Whether one of `positions` names row `row`, column `col`. */
  predicate Marked(positions: seq<Position2D>, row: nat, col: nat)
  {
    exists k :: 0 <= k < |positions| && positions[k] == Position2D(col, row)
  }

  /** The board after the loop, and the index of the position that threw, if one did. */
  datatype Seeded = Seeded(board: Board, failedAt: Option<nat>)
  {
    /** How many positions were applied before the loop ended. */
    function Processed(total: nat): nat
    {
      if failedAt.Some? && failedAt.value < total then failedAt.value else total
    }
  }

  /** `board[row][col] = true`. */
  function SetLive(b: Board, row: nat, col: nat): (r: Board)
    requires row < b.Rows() && col < |b.state[row]|
    ensures r.Rows() == b.Rows() && forall i | 0 <= i < b.Rows() :: |r.state[i]| == |b.state[i]|
    ensures forall i, j | 0 <= i < b.Rows() && 0 <= j < |b.state[i]| ::
      r.state[i][j] == (b.state[i][j] || (i == row && j == col))
  {
    Board(b.state[row := b.state[row][col := true]])
  }

  /**
   `InitializeBoard`: walks the positions in order, throwing at the first
   one with `x >= Cols()` or `y >= Rows()` and otherwise setting that cell
   live. The board is changed in place, so the positions before a throw
   have already been applied.
   */
  function InitializeBoard(initState: seq<Position2D>, b: Board): (r: Seeded)
    requires b.Rectangular()
    requires |initState| > 0 ==> b.Rows() > 0
    ensures r.board.Rows() == b.Rows() && r.board.Rectangular()
    ensures forall i | 0 <= i < b.Rows() :: |r.board.state[i]| == |b.state[i]|
    ensures r.failedAt.None? <==> forall k | 0 <= k < |initState| :: InBounds(b, initState[k])
    ensures r.failedAt.Some? ==>
      && r.failedAt.value < |initState|
      && !InBounds(b, initState[r.failedAt.value])
      && forall k | 0 <= k < r.failedAt.value :: InBounds(b, initState[k])
    ensures forall i, j | 0 <= i < b.Rows() && 0 <= j < |b.state[i]| ::
      r.board.state[i][j] == (b.state[i][j] || Marked(initState[..r.Processed(|initState|)], i, j))
    decreases |initState|
  {
    if |initState| == 0 then Seeded(b, None)
    else
      var pos := initState[0];
      if pos.x >= b.Cols() || pos.y >= b.Rows() then
        assert initState[..0] == [];
        Seeded(b, Some(0))
      else
        var b' := SetLive(b, pos.y, pos.x);
        var rest := InitializeBoard(initState[1..], b');
        var r := Seeded(rest.board, if rest.failedAt.Some? then Some(rest.failedAt.value + 1) else None);
        InitializeStep(initState, b, b', rest, r);
        r
  }

  /** The recursive case of `InitializeBoard`: the first position applied, then the rest. */
  lemma InitializeStep(initState: seq<Position2D>, b: Board, b': Board, rest: Seeded, r: Seeded)
    requires b.Rectangular() && |initState| > 0 && b.Rows() > 0
    requires InBounds(b, initState[0])
    requires b' == SetLive(b, initState[0].y, initState[0].x) && b'.Rectangular()
    requires rest.failedAt.None? <==> forall k | 0 <= k < |initState[1..]| :: InBounds(b', initState[1..][k])
    requires rest.failedAt.Some? ==>
      && rest.failedAt.value < |initState[1..]|
      && !InBounds(b', initState[1..][rest.failedAt.value])
      && forall k | 0 <= k < rest.failedAt.value :: InBounds(b', initState[1..][k])
    requires rest.board.Rows() == b'.Rows()
    requires forall i | 0 <= i < b'.Rows() :: |rest.board.state[i]| == |b'.state[i]|
    requires forall i, j | 0 <= i < b'.Rows() && 0 <= j < |b'.state[i]| ::
      rest.board.state[i][j] == (b'.state[i][j] || Marked(initState[1..][..rest.Processed(|initState[1..]|)], i, j))
    requires r == Seeded(rest.board, if rest.failedAt.Some? then Some(rest.failedAt.value + 1) else None)
    ensures r.failedAt.None? <==> forall k | 0 <= k < |initState| :: InBounds(b, initState[k])
    ensures r.failedAt.Some? ==>
      && r.failedAt.value < |initState|
      && !InBounds(b, initState[r.failedAt.value])
      && forall k | 0 <= k < r.failedAt.value :: InBounds(b, initState[k])
    ensures forall i, j | 0 <= i < b.Rows() && 0 <= j < |b.state[i]| ::
      r.board.state[i][j] == (b.state[i][j] || Marked(initState[..r.Processed(|initState|)], i, j))
  {
    var tail := initState[1..];
    var n := rest.Processed(|tail|);
    assert r.Processed(|initState|) == n + 1;
    assert b'.Cols() == b.Cols();
    assert forall k | 0 <= k < |tail| :: InBounds(b', tail[k]) == InBounds(b, initState[k + 1]);
    if r.failedAt.None? {
      assert forall k | 0 <= k < |initState| :: InBounds(b, initState[k]) by {
        forall k | 0 <= k < |initState|
          ensures InBounds(b, initState[k])
        {
          if k > 0 {
            assert InBounds(b', tail[k - 1]);
          }
        }
      }
    } else {
      var f := rest.failedAt.value;
      assert !InBounds(b, initState[f + 1]);
      assert forall k | 0 <= k < f + 1 :: InBounds(b, initState[k]) by {
        forall k | 0 <= k < f + 1
          ensures InBounds(b, initState[k])
        {
          if k > 0 {
            assert InBounds(b', tail[k - 1]);
          }
        }
      }
    }
    forall i, j | 0 <= i < b.Rows() && 0 <= j < |b.state[i]|
      ensures r.board.state[i][j] == (b.state[i][j] || Marked(initState[..n + 1], i, j))
    {
      var pos := initState[0];
      assert Marked(initState[..n + 1], i, j) <==> (pos == Position2D(j, i) || Marked(tail[..n], i, j)) by {
        if Marked(initState[..n + 1], i, j) {
          var k :| 0 <= k < n + 1 && initState[..n + 1][k] == Position2D(j, i);
          if k > 0 {
            assert tail[..n][k - 1] == initState[..n + 1][k];
          }
        }
        if Marked(tail[..n], i, j) {
          var k :| 0 <= k < n && tail[..n][k] == Position2D(j, i);
          assert initState[..n + 1][k + 1] == tail[..n][k];
        }
        assert initState[..n + 1][0] == pos;
      }
    }
  }

  /** Two boards with the same rows, row lengths and cells are the same board. */
  lemma BoardsEqual(b1: Board, b2: Board)
    requires b1.Rows() == b2.Rows()
    requires forall i | 0 <= i < b1.Rows() :: |b1.state[i]| == |b2.state[i]|
    requires forall i, j | 0 <= i < b1.Rows() && 0 <= j < |b1.state[i]| :: b1.state[i][j] == b2.state[i][j]
    ensures b1 == b2
  {
    forall i | 0 <= i < b1.Rows()
      ensures b1.state[i] == b2.state[i]
    {
    }
  }

  /**
   Seeding a board twice with the same positions changes nothing the
   second time: every position is already live and every bound check
   passes again.
   */
  lemma InitializeIdempotent(initState: seq<Position2D>, b: Board)
    requires b.Rectangular()
    requires |initState| > 0 ==> b.Rows() > 0
    requires InitializeBoard(initState, b).failedAt.None?
    ensures var seeded := InitializeBoard(initState, b).board;
      InitializeBoard(initState, seeded) == Seeded(seeded, None)
  {
    var seeded := InitializeBoard(initState, b).board;
    var again := InitializeBoard(initState, seeded);
    assert initState[..|initState|] == initState;
    if b.Rows() > 0 {
      assert seeded.Cols() == b.Cols();
    }
    assert again.failedAt.None?;
    forall i, j | 0 <= i < seeded.Rows() && 0 <= j < |seeded.state[i]|
      ensures again.board.state[i][j] == seeded.state[i][j]
    {
      if Marked(initState, i, j) {
        assert seeded.state[i][j];
      }
    }
    BoardsEqual(again.board, seeded);
  }

  /** A position list repeated names the same cells as the list itself. */
  lemma MarkedTwice(initState: seq<Position2D>, row: nat, col: nat)
    ensures Marked(initState + initState, row, col) == Marked(initState, row, col)
  {
    var twice := initState + initState;
    if Marked(twice, row, col) {
      var k :| 0 <= k < |twice| && twice[k] == Position2D(col, row);
      if k >= |initState| {
        assert initState[k - |initState|] == twice[k];
      } else {
        assert initState[k] == twice[k];
      }
    }
    if Marked(initState, row, col) {
      var k :| 0 <= k < |initState| && initState[k] == Position2D(col, row);
      assert twice[k] == initState[k];
    }
  }

  /** Repeating the list does not move the first out-of-bounds position. */
  lemma FailureTwice(initState: seq<Position2D>, b: Board)
    requires b.Rectangular()
    requires |initState| > 0 ==> b.Rows() > 0
    ensures InitializeBoard(initState + initState, b).failedAt == InitializeBoard(initState, b).failedAt
  {
    var twice := initState + initState;
    var r1 := InitializeBoard(twice, b);
    var r2 := InitializeBoard(initState, b);
    assert forall k | 0 <= k < |initState| :: twice[k] == initState[k];
    assert forall k | |initState| <= k < |twice| :: twice[k] == initState[k - |initState|];
    if r2.failedAt.None? {
      assert r1.failedAt.None? by {
        forall k | 0 <= k < |twice|
          ensures InBounds(b, twice[k])
        {
          if k >= |initState| {
            assert InBounds(b, initState[k - |initState|]);
          }
        }
      }
    } else {
      assert !InBounds(b, twice[r2.failedAt.value]);
      assert r1.failedAt.value == r2.failedAt.value;
    }
  }

  /** Two seedings of `b` that mark the same cells leave the same cells live. */
  lemma SameMarksSameCells(b: Board, b1: Board, b2: Board, p1: seq<Position2D>, p2: seq<Position2D>)
    requires b1.Rows() == b.Rows() && b2.Rows() == b.Rows()
    requires forall i | 0 <= i < b.Rows() :: |b1.state[i]| == |b.state[i]| && |b2.state[i]| == |b.state[i]|
    requires forall i, j | 0 <= i < b.Rows() && 0 <= j < |b.state[i]| ::
      b1.state[i][j] == (b.state[i][j] || Marked(p1, i, j))
    requires forall i, j | 0 <= i < b.Rows() && 0 <= j < |b.state[i]| ::
      b2.state[i][j] == (b.state[i][j] || Marked(p2, i, j))
    requires forall i: nat, j: nat :: Marked(p1, i, j) == Marked(p2, i, j)
    ensures b1 == b2
  {
    BoardsEqual(b1, b2);
  }

  /**
   Listing every position twice seeds the same board, and throws at the
   same position, as listing it once: a repeated position only sets a cell
   that is already live.
   */
  lemma InitializeDuplicates(initState: seq<Position2D>, b: Board)
    requires b.Rectangular()
    requires |initState| > 0 ==> b.Rows() > 0
    ensures InitializeBoard(initState + initState, b) == InitializeBoard(initState, b)
  {
    var twice := initState + initState;
    var r1 := InitializeBoard(twice, b);
    var r2 := InitializeBoard(initState, b);
    FailureTwice(initState, b);
    var p1 := twice[..r1.Processed(|twice|)];
    var p2 := initState[..r2.Processed(|initState|)];
    forall i: nat, j: nat
      ensures Marked(p1, i, j) == Marked(p2, i, j)
    {
      if r2.failedAt.None? {
        assert p1 == twice && p2 == initState;
        MarkedTwice(initState, i, j);
      } else {
        assert p1 == p2;
      }
    }
    SameMarksSameCells(b, r1.board, r2.board, p1, p2);
    BoardsEqual(r1.board, r2.board);
  }
}
