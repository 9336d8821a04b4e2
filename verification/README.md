# Conway's Game of Life, two engines

This project models the core of a Game of Life program that exists twice:

- A Rust engine. `GameBoard` keeps the field as one row-major vector of booleans, `width * height` long.
  - The cell at column `x`, row `y` sits at index `x + y * width`.
  - `new` seeds it from a list of points.
  - `count_live_neighbors` counts the live cells around a position.
  - `next_state` advances it one generation.
  - `load_initial_state` reads `(x,y)` lines into points.
- A C++ engine. `GameOfLifeBoard` keeps the field as a vector of rows, `state_[row][col]`.
  - `CountLiveNeighbors` walks a table of eight directions.
  - `Tick` evaluates every cell against a copy of the board.
  - The program's `LoadInitState` and `InitializeBoard` read a pattern file and mark its positions live.

Both engines follow Conway's rule with a hard, non-wrapping border: positions off the board count as dead. The central result is that the two engines agree. A flat board and a nested board correspond when `points[x + y*width] == state[y][x]` for every cell.

The Rust code computes the cell index `x + y * width` in `u16`, so it wraps once a board has more than 65536 cells (see Findings). The model keeps both versions of the Rust engine. The version as written indexes in `u16` (`FlatGrid.CountAsWritten`, `FlatGrid.NextStateAsWritten`). The corrected version indexes exactly (`FlatGrid.CountLiveNeighbors`, `FlatGrid.NextState`). The two give the same results on boards of at most 65536 cells (`FlatGrid.CountAsWrittenExact`, `FlatGrid.NextStateAsWrittenExact`).

For the code as written, on corresponding boards of at most 65536 cells:

- the neighbour counts coincide (`Agreement.SourceCountsAgree`);
- one step of `next_state` and one step of `Tick` give corresponding boards (`Agreement.SourceTickAgrees`);
- so do any number of steps (`Agreement.SourceAgreeForever`).

Beyond that size the counts can differ. `Agreement.SourceDisagreesBeyondBound` gives corresponding 512 x 129 boards on which the Rust count at one cell is 1 and the C++ count is 0.

With the index computed exactly, the engines agree on corresponding boards of every size:

- the neighbour counts coincide (`Agreement.NeighborCountsAgree`);
- one step gives corresponding boards (`Agreement.TickAgreesWithNextState`);
- so do any number of steps (`Agreement.AgreeForever`);
- seeding the same points gives corresponding boards, and the C++ seeding does not throw (`Agreement.SeedingAgrees`).

Files:

| file | module | contents |
|---|---|---|
| `life.dfy` | `Life` | `u16` values and the `as u16` cast, `Option`, Conway's rule, counting flags |
| `flat_grid.dfy` | `FlatGrid` | `Point`, `GameBoard`, `new`, `count_live_neighbors`, `next_state`, each with the exact index, and the count and step with the `u16` index as written |
| `pattern_parser.dfy` | `PatternParser` | the line parsing of `load_initial_state` |
| `nested_board.dfy` | `NestedBoard` | `GameOfLifeBoard`: constructor, `Rows`, `Cols`, `CountLiveNeighbors`, `Tick` |
| `seeding.dfy` | `Seeding` | `Position2D`, `LoadInitState`, `InitializeBoard` |
| `agreement.dfy` | `Agreement` | the correspondence between the two engines |

Modelling choices:

- **Operations become pure values.**
  - Rust's `&mut self` operations return a new board.
  - C++ `Tick` is a method with the source's nested loops. It is proved to compute the functional `NestedBoard.Successor`.
  - `operator[]` is sequence indexing.
  - `Rows()` and `Cols()` are members of `NestedBoard.Board`.
- **Integer widths.**
  - The Rust neighbour coordinates are `u16`. The cast `(x as isize + i) as u16` is written out as `Life.Wrap16`, so -1 becomes 65535 and fails the `< width` test.
  - The C++ neighbour coordinates are exact signed integers.
- **Errors.**
  - `InitializeBoard` throws at the first position outside the board, after the earlier positions have already been written. The model returns the partly seeded board together with the index of the position that threw.
  - `load_initial_state` skips a line that does not parse. The model returns `None` for that line and leaves it out of the result.
- **Coordinate order differs between the programs.**
  - Rust reads a line `(a,b)` as `x = a`, `y = b`.
  - C++ scans `(a, b)` into `pos.y`, then `pos.x`.
  - So the same pattern file gives transposed patterns in the two programs. `Agreement.SeedingAgrees` states agreement for the same points, not for the same file.

Details of the code that the model keeps:

- **Parentheses.** `trim_matches` strips every leading and trailing parenthesis, not one enclosing pair. So `((1,2))` and `((1,2)` both parse (`PatternParser.NestedParenthesesAccepted`, `PatternParser.ExtraParenthesesIgnored`).
- **Numbers.** Coordinates are parsed as `u16`:
  - values above 65535 are rejected;
  - a leading `+` is accepted (`PatternParser.ParseU16`, `PatternParser.ParsePlus`).
- **Border check.** The Rust code casts each neighbour coordinate to `u16` before comparing it with `width` and `height`. It relies on -1 becoming 65535. `FlatGrid.OffsetHitIsAlive` shows the cast never turns an off-board neighbour into an on-board one while the centre is below 65535.

## Model

| member | source | states |
|---|---|---|
| Life.Wrap16 | src/lib.rs:134-135 | The `as u16` cast gives a `u16` that is congruent to its operand modulo 65536. It is the identity on 0..65535 and sends -1 to 65535. |
| FlatGrid.IndexBounds | src/lib.rs:112-114 | An on-board position's row-major index lies inside the `width * height` vector. |
| FlatGrid.IndexInjective | src/lib.rs:114 | With the exact index, two positions with columns below `width` have the same index only if they are the same position. So no seed or neighbour lands on another cell. The `u16` index as written does collide (`FlatGrid.WrappedIndexCollides`). |
| FlatGrid.IndexDivMod | src/lib.rs:152-155 | Position `idx` of the row-major enumeration is column `idx % width`, row `idx / width`, and that cell's index is `idx` again. |
| FlatGrid.WrappedIndex | src/lib.rs:136 | The index as computed in `u16` is congruent to the exact index modulo 65536, and equals it when the exact index is below 65536. |
| FlatGrid.WrappedIndexExact | src/lib.rs:136 | On a board of at most 65536 cells, the `u16` index of an on-board cell is the exact index. |
| FlatGrid.WrappedIndexCollides | src/lib.rs:114 | On a 512 x 512 board, the `u16` index of (0, 128) equals that of (0, 0), although the exact indices differ. |
| FlatGrid.WrappedSeedLandsInside | src/lib.rs:114 | On a 10 x 10 board, the seed (0, 6554) is rejected by `SeedsFit`, because its exact index is 65540. Its `u16` index is 4, the index of cell (4, 0), inside the vector. |
| FlatGrid.WrappedSeedPastVector | src/lib.rs:114 | On a 10 x 10 board, the seed (0, 6600) is rejected by `SeedsFit`. Its `u16` index is 464, still past the 100-cell vector, so the write panics even with overflow checks off. |
| FlatGrid.SeedCells | src/lib.rs:113-115 | After the seeding loop, a cell is live exactly when it was live before or some seed's index names it. |
| FlatGrid.New | src/lib.rs:111-121 | `new` gives a board of the requested size holding `width * height` cells. A cell is live exactly when some seed's index names it. |
| FlatGrid.SeedsOnGridFit | src/lib.rs:114 | Seeds with `x < width` and `y < height` never index past the vector. |
| FlatGrid.NewCellsAreSeeds | src/lib.rs:111-121 | With every seed on the board, cell `(x, y)` of the new board is live exactly when `Point(x, y)` is among the seeds. |
| FlatGrid.CountLiveNeighbors | src/lib.rs:123-143 | The neighbour count lies between 0 and 8. |
| FlatGrid.OffsetHitIsAlive | src/lib.rs:134-136 | For a centre below 65535 in both coordinates, one loop step counts a neighbour exactly when that neighbour is on the board and live. |
| FlatGrid.CountMatchesMoore | src/lib.rs:127-143 | The count equals the number of live, on-board cells among the eight Moore neighbours. Off-board positions are dead. |
| FlatGrid.CountIgnoresSelf | src/lib.rs:131-133 | Changing the centre cell does not change its own neighbour count, because the loop skips `(0, 0)`. |
| FlatGrid.Transition | src/lib.rs:147-160 | The `matches!` table equals the documented rule: a live cell survives with 2 or 3 neighbours, a dead cell is born with 3, and every other cell is dead. |
| FlatGrid.StepCellRule | src/lib.rs:152-161 | The new value computed at cell `(x, y)`'s index is Conway's rule applied to the old cell and its number of live on-board neighbours. |
| FlatGrid.NextState | src/lib.rs:151-163 | `next_state` keeps the board's size. Every cell of the result follows Conway's rule on the old board. |
| FlatGrid.WrappedIndexInside | src/lib.rs:136 | The `u16` index of an on-board cell always lies inside the `width * height` vector, so the count as written never reads past it. |
| FlatGrid.CountAsWritten | src/lib.rs:127-143 | The count as written, with the neighbour's index computed in `u16`, lies between 0 and 8. |
| FlatGrid.CountAsWrittenExact | src/lib.rs:136 | On a board of at most 65536 cells, the count as written equals the exact-index count, and so the number of live Moore neighbours. |
| FlatGrid.CountAsWrittenMisreads | src/lib.rs:136 | On a 512 x 129 board whose only live cell is (1, 0), cell (0, 128) has no live neighbour. The count as written is still 1: neighbour (1, 128) has index 65537, which wraps to 1. |
| FlatGrid.NextStateAsWritten | src/lib.rs:151-163 | `next_state` as written, counting with the `u16` index, keeps the board's size. |
| FlatGrid.NextStateAsWrittenExact | src/lib.rs:151-163 | On a board of at most 65536 cells, `next_state` as written gives the exact-index step, so every cell follows Conway's rule. |
| FlatGrid.NextStateIsLocal | src/lib.rs:151-163 | Two boards that agree on a cell's 3x3 block give that cell the same next value. |
| PatternParser.StripStartSpec | src/lib.rs:213-214 | Every character stripped from the front matches the pattern, and what is kept starts with a non-match. |
| PatternParser.StripEndSpec | src/lib.rs:213-214 | Every character stripped from the back matches the pattern, and what is kept ends with a non-match. |
| PatternParser.TrimMatchesEnds | src/lib.rs:214 | What `trim_matches` keeps neither starts nor ends with a character the pattern matches. |
| PatternParser.TrimMatchesStretch | src/lib.rs:214 | What `trim_matches` keeps is one contiguous stretch of the string. Every character before and after it matches the pattern. |
| PatternParser.TrimSpec | src/lib.rs:213 | `trim` keeps one contiguous stretch with only white space before and after it. The stretch neither starts nor ends with white space. |
| PatternParser.TrimMatchesUnchanged | src/lib.rs:214 | A string whose first and last characters are not parentheses passes through `trim_matches` unchanged. |
| PatternParser.TrimMatchesPair | src/lib.rs:214 | A string wrapped in one matching character at each end loses exactly those two, when the inner string has non-matching ends. |
| PatternParser.Split | src/lib.rs:215-216 | `split(',')` gives at least one field, no field holds a comma, and joining the fields with commas gives back the input. |
| PatternParser.SplitJoin | src/lib.rs:215-216 | Splitting comma-joined, comma-free fields gives back exactly those fields. |
| PatternParser.ParseU16 | src/lib.rs:219-221 | `parse::<u16>` accepts a plain digit string worth at most 65535 and returns its value. It rejects larger values, the empty string, a lone `+` and anything starting with `-`. Whatever it accepts is digits, after at most one `+`, and it returns their value. |
| PatternParser.ParsePlus | src/lib.rs:219-221 | One leading `+` is ignored: `+d` parses exactly as `d` does. |
| PatternParser.ParseShow | src/lib.rs:220-221 | Parsing the decimal rendering of a `u16` gives the same number back. |
| PatternParser.ParseFormat | src/lib.rs:212-224 | The line `(x,y)` written for a point parses back to that point. |
| PatternParser.ParseTwoFields | src/lib.rs:218-224 | A line whose stripped content is two comma-free fields gives a point exactly when both trimmed fields parse as `u16`. The first field becomes `x` and the second `y`. |
| PatternParser.ParseLine | src/lib.rs:212-224 | A line gives a point only if it has exactly two fields. The point's `x` is the `u16` value of the first trimmed field and its `y` that of the second. A line is skipped only if it has a field count other than two or a field that is not a `u16`. |
| PatternParser.ParseNoComma | src/lib.rs:215-218 | A line with no comma between its parentheses is skipped. |
| PatternParser.ParseExtraFields | src/lib.rs:215-218 | A line with three or more fields is skipped, whatever the fields hold. |
| PatternParser.ExtraParenthesesIgnored | src/lib.rs:214 | Wrapping a parenthesised line in one more pair of parentheses does not change its parse, as long as the line is more than parentheses. |
| PatternParser.NestedParenthesesAccepted | src/lib.rs:214 | `((x,y))` gives the point `(x, y)`: every enclosing parenthesis is stripped, not one pair. |
| PatternParser.ParseLines | src/lib.rs:210-226 | The loader returns at most one point per line. |
| PatternParser.PointsFromLines | src/lib.rs:210-226 | Every returned point is the parse of some input line. |
| PatternParser.ParseLinesAppend | src/lib.rs:210-226 | Parsing two runs of lines one after the other gives the first run's points followed by the second's. |
| PatternParser.SkipBadLine | src/lib.rs:218-225 | A line that does not parse contributes nothing. The lines after it keep their points and their order. |
| PatternParser.ParseGoodLines | src/lib.rs:210-226 | If every line parses, the result is exactly those points, one per line, in line order. |
| PatternParser.ParseFormattedLines | src/lib.rs:205-229 | A file of `(x,y)` lines written for a list of points loads back as exactly that list. |
| NestedBoard.Construct | src/game/board.cpp:35-36 | The constructor gives `numRows` rows of `numCols` cells, all dead. `Rows()` and `Cols()` report those sizes when there is a row. |
| NestedBoard.Board.Rows | include/game/board.h:39 | The row count is 0 exactly for the empty board. It is the number of rows of every shape the board has. |
| NestedBoard.Board.Cols | include/game/board.h:44 | On a board with a row, `Cols()` is row 0's length, which is every row's length on a rectangular board and only then. |
| NestedBoard.DirectionsAreMoore | src/game/board.cpp:14-16 | The direction table holds exactly the eight offsets with both steps in -1..1, excluding `(0, 0)`. |
| NestedBoard.CountLiveNeighbors | src/game/board.cpp:9-33 | The neighbour count lies between 0 and 8. |
| NestedBoard.CountIsNeighborSum | src/game/board.cpp:23-31 | The count equals the number of live cells in the 3x3 block around `(row, col)`, the centre excluded and off-board positions dead. |
| NestedBoard.SuccessorShape | src/game/board.cpp:42-62 | One generation keeps the number of rows and the length of every row. |
| NestedBoard.Tick | src/game/board.cpp:38-63 | `Tick` gives every cell Conway's rule applied to its value and neighbour count on the board before the call. No cell sees an updated neighbour. The shape is kept. |
| NestedBoard.TickRow | src/game/board.cpp:46-60 | The inner loop over row `i` gives that row's cells Conway's rule applied to the board before the call. |
| NestedBoard.DeadBoardIsStill | src/game/board.cpp:35-63 | A freshly constructed, all-dead board does not change under `Tick`. |
| Seeding.LoadInitState | src/game_of_life/game_of_life.cpp:45-51 | One position is pushed per line. A fully scanned line `(a, b)` gives `y = a`, `x = b`. A line that does not scan repeats the previous position, or `(0, 0)` on the first line. Without the recurrence: line `k`'s position is `x` from the last full scan up to `k`, `y` from the last scan up to `k` that converted anything, and 0 where there is none. |
| Seeding.LastFull | src/game_of_life/game_of_life.cpp:49 | Picks the last line at or before `k` on which both numbers converted: that line converted both, and no later line up to `k` did. It gives -1 when there is no such line. |
| Seeding.LastConverting | src/game_of_life/game_of_life.cpp:49 | Picks the last line at or before `k` on which at least the first number converted: that line converted something, and every later line up to `k` converted nothing. It gives -1 when there is no such line. |
| Seeding.ScannedPosition | src/game_of_life/game_of_life.cpp:46-50 | Unrolls the loop. The position pushed for line `k` has `x` equal to the second number of the last fully scanned line, and `y` equal to the first number of the last line that converted anything. Each is 0 when there is no such line. |
| Seeding.SetLive | src/game_of_life/game_of_life.cpp:61 | `board[y][x] = true` makes that cell live and changes no other cell or row length. |
| Seeding.InitializeBoard | src/game_of_life/game_of_life.cpp:55-63 | There is no failure exactly when every position is on the board. Otherwise the failure is at the first off-board position. The cells marked are exactly those of the positions before it, and the shape is unchanged. |
| Seeding.InitializeIdempotent | src/game_of_life/game_of_life.cpp:55-63 | Seeding a board again with the positions that just seeded it succeeds and changes nothing. |
| Seeding.InitializeDuplicates | src/game_of_life/game_of_life.cpp:57-62 | Listing the positions twice gives the same board and the same failure index as listing them once. |
| Agreement.NeighborCountsAgree | src/lib.rs:127-143 | With the exact index, on corresponding boards of any size, `count_live_neighbors(x, y)` equals the C++ `CountLiveNeighbors(y, x)` for every on-board cell. |
| Agreement.TickAgreesWithNextState | src/game/board.cpp:38-63 | With the exact index, `next_state` on a flat board and `Tick` on a corresponding nested board give corresponding boards. |
| Agreement.AgreeForever | src/lib.rs:151-163 | With the exact index, corresponding boards stay corresponding after any number of `next_state` and `Tick` steps. |
| Agreement.SourceCountsAgree | src/lib.rs:127-143 | On corresponding boards of at most 65536 cells, the Rust count as written at `(x, y)` equals the C++ `CountLiveNeighbors(y, x)` for every on-board cell. |
| Agreement.SourceTickAgrees | src/lib.rs:151-163 | On corresponding boards of at most 65536 cells, `next_state` as written and `Tick` give corresponding boards. |
| Agreement.SourceAgreeForever | src/lib.rs:151-163 | On corresponding boards of at most 65536 cells, the boards stay corresponding after any number of `next_state` steps as written and `Tick` steps. |
| Agreement.SourceDisagreesBeyondBound | src/lib.rs:136 | There are corresponding boards of more than 65536 cells on which the two engines count the same cell differently: 1 in Rust as written, 0 in C++. |
| Agreement.SeedingAgrees | src/game_of_life/game_of_life.cpp:55-63 | For points on the board, `GameBoard::new` and `InitializeBoard` on a fresh `height` x `width` board give corresponding boards, and `InitializeBoard` does not throw. |

## Left out

- `center_points_on_screen`: uses floating-point scaling, which is not modelled.
- `Config`, `run`, `draw` and the Rust command line in `src/main.rs`: terminal I/O.
- In `load_initial_state`, opening the file, reading lines and propagating I/O errors: the model takes the lines as strings. How `lines()` treats line endings is not modelled.
- The C++ `LoadInitState`'s file open and its `invalid_argument` throw: I/O.
- What `sscanf` itself matches: each line enters as a `Seeding.Scan`, the outcome of the call (no conversion, only the first number, or both).
- The C++ `main`, option parsing, ncurses screen set-up, `RunDrawLoop` and the graphics files: I/O. The board's dimensions, which `main` takes from the screen (`height - 1` rows), are parameters.
- `Point::new`: the datatype constructor `FlatGrid.Point`.
- FlatGrid.New: requires every seed's exact index to lie inside the vector (`FlatGrid.SeedsFit`). The seeds this excludes are not modelled, because the source either panics on them or writes a wrapped index:
  - a seed whose exact index is at or past the vector's length but at most 65535 panics on the index;
  - a seed whose exact index is above 65535 overflows the `u16` arithmetic. With overflow checks on, that panics. With them off, the source writes at the wrapped index when that lies inside the vector. On a 10 x 10 board, seed (0, 6554) sets cell (4, 0) (`FlatGrid.WrappedSeedLandsInside`). Otherwise it panics on the index: seed (0, 6600) wraps to 464 (`FlatGrid.WrappedSeedPastVector`).
- FlatGrid.New: a seed with `x >= width` whose index still fits sets a cell of a later row, as in the source.
- FlatGrid.New: computes seed indices exactly. The source uses `u16` arithmetic, which gives the same index for every seed whose exact index is below 65536. On boards of at most 65536 cells that covers every seed `SeedsFit` admits (see Findings).
- FlatGrid.CountMatchesMoore: requires both coordinates below 65535. At 65535 the `+ 1` wraps to 0. That cannot happen for an on-board cell, since `width` and `height` are at most 65535.
- FlatGrid.CountLiveNeighbors: reads cells at the exact index. The source's `u16` index is modelled by `FlatGrid.CountAsWritten`. The two agree on boards of at most 65536 cells (`FlatGrid.CountAsWrittenExact`) and can differ beyond (`FlatGrid.CountAsWrittenMisreads`).
- FlatGrid.NextState: steps with the exact-index count. The step as written is `FlatGrid.NextStateAsWritten`. The two are equal on boards of at most 65536 cells (`FlatGrid.NextStateAsWrittenExact`).
- NestedBoard.Board.Cols: requires a board with a row. The source's `Cols()` reads row 0, which is undefined on an empty board.
- NestedBoard.CountLiveNeighbors: requires a board with at least one row. The source calls `Cols()`, which reads row 0 and is undefined on an empty board. `Tick` never calls it on an empty board.
- NestedBoard.Construct: `Cols()` is stated only for a board with a row, because the source's `Cols()` reads row 0.
- NestedBoard.CountIsNeighborSum: neighbour coordinates are exact signed integers. The source narrows `size_t` sums to `int`, which is exact for boards of fewer than 2^31 rows and columns.
- Agreement.NeighborCountsAgree: holds for the exact index. For the count as written it holds on boards of at most 65536 cells (`Agreement.SourceCountsAgree`) and can fail beyond (`Agreement.SourceDisagreesBeyondBound`).
- Agreement.TickAgreesWithNextState: holds for the exact index. For `next_state` as written it holds on boards of at most 65536 cells (`Agreement.SourceTickAgrees`).
- Agreement.AgreeForever: holds for the exact index. For `next_state` as written it holds on boards of at most 65536 cells (`Agreement.SourceAgreeForever`).
- Agreement.SeedingAgrees: uses the exact seed index. `GameBoard::new` as written, with its `u16` seed index, is not modelled separately. `FlatGrid.WrappedIndexCollides` shows where its index differs.
- Seeding.InitializeBoard: requires a board with a row whenever there is a position, because the source's first bound check calls `Cols()`.

## Findings

| source | as written | input that shows it | evidently intended | confidence | as-written member | corrected member |
|---|---|---|---|---|---|---|
| src/lib.rs:114 | `new` computes the seed index `x + y * width` in `u16`. | A 512 x 512 board, a size the benchmark builds. The point (0, 128) has index 65536, which wraps to 0, the index of (0, 0), or panics when overflow is checked. | The index is computed in `usize`, so every cell of the `width * height` vector has its own index. | medium, not executed | FlatGrid.WrappedIndexCollides | FlatGrid.IndexInjective |
| src/lib.rs:136 | `count_live_neighbors` computes the neighbour's index `x + y * self.width` in `u16`. | A 512 x 129 board whose only live cell is (1, 0). At (0, 128), neighbour (1, 128) has index 65537, which wraps to 1, so the count is 1 although no neighbour is live. With overflow checks on, it panics instead. | The index is computed in `usize`, so the count reads the neighbour's own cell. | medium, not executed | FlatGrid.CountAsWrittenMisreads | FlatGrid.CountMatchesMoore |
