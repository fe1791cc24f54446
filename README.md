# Crab sweeper: a verified model of the game engine

This project models the game core of a Minesweeper clone in which the mines are
crabs. It covers three parts:

- **The board engine** (`GameBoard`). Four parallel arrays of capacity 225,
  indexed row-major, hold for each cell whether it is uncovered, whether it
  hides a mine, how many mines are next to it, and its marker. Generation
  places the mines from a run of random draws and counts neighbours. A left
  release reveals a tile and floods the zero region around it. A loss shows
  every mine. A right release cycles the marker (none, flagged, questioned).
  The win test asks whether the uncovered cells are exactly the safe cells.
- **The screen glue** (`SweeperScreen`). It rebuilds the board from the stored
  seed on the panel's Reset and board-change commands. It runs one frame in
  the program's order: board, then command, then flag counter, then win test,
  then clearing the stored mouse positions.
- **The mouse input handlers.** A `ButtonHandler` is an edge detector per
  button: it derives one-shot click, held and release flags and remembers the
  last click and release positions. A `MouseInputHandler` owns the left, right
  and middle handlers and routes button and motion events to them.

Modules:

| module | file |
|---|---|
| `Grid` | `grid.dfy`: row-major addressing, the eight-way neighbour list, the tile mapping |
| `Markers` | `markers.dfy`: `FlagMarker`, its byte conversions and `+=` |
| `BoardSpec` | `board_spec.dfy`: the same engine stated on values, plus the lemmas |
| `Board` | `game_board.dfy`: class `GameBoard` over four arrays |
| `ButtonInput` | `button_handler.dfy`: class `ButtonHandler` and its value-level specification `Pushed` |
| `MouseInput` | `mouse_input_handler.dfy`: class `MouseInputHandler` |
| `Controller` | `controller.dfy`: class `SweeperScreen` and the panel's `Command`s |
| `Wrappers` | `wrappers.dfy`: `Option` |

The model takes its form from the program:

- **Classes where state is updated in place.** `GameBoard`, `ButtonHandler`,
  `MouseInputHandler` and `SweeperScreen` are classes whose methods update
  fields and arrays.
- **Methods proved against functions.** Each method is proved against a
  function on values:
  - `Push` against `Pushed`;
  - `Init` against `DrawnLayout` and `Adjacency`;
  - the flood fill against `FreshZeros` and `WaveZeros`, and against the zero
    region `IsZeroRegion`;
  - the counters against `CountOf`;
  - `IsWin` against `Resolved`.
- **Randomness.** Randomness is a run of draws passed in. The screen holds the
  generator as a function `draw(seed, ratio, n)`, so a rebuild from the stored
  seed is deterministic.
- **Input coordinates.** Pixel geometry is not modelled. A release arrives as
  the tile (column, row) it fell on.

Observations about the program:

- The panel button labelled `1:15` sets the mine ratio to 10, not 15 (see
  `Controller.FifteenButtonSetsTen`).
- `update` acts on releases even after the game is over. Only a new board
  clears `game_over`.
- A ratio of 1 makes every cell a mine. The win test then holds at once, since
  no cell is uncovered and every cell is a mine, so the very next frame reports
  a win.

## Model

| member | source | states |
|---|---|---|
| `Grid.IndexToCoordinates` | src/screens/sweeper_screen.rs:669-671 | the column is below the width, and row * width + column gives back the index |
| `Grid.IndexRoundTrip` | src/screens/sweeper_screen.rs:661-671 | for every index, mapping it to coordinates and back gives the same index |
| `Grid.CoordinatesRoundTrip` | src/screens/sweeper_screen.rs:661-671 | for every column inside the row, mapping coordinates to an index and back gives the same coordinates |
| `Grid.CoordinatesToIndex` | src/screens/sweeper_screen.rs:661-667 | any column past the last one (x > width - 1) maps to tile 0, whatever the row |
| `Grid.CoordinatesInBoard` | src/screens/sweeper_screen.rs:661-667 | a tile inside the board has an index inside the board |
| `Grid.RowInBoard` | src/screens/sweeper_screen.rs:669-671 | an index inside the board has a row inside the board |
| `Grid.EdgeReleaseMisses` | src/screens/sweeper_screen.rs:650-686 | as written: column `width` maps to tile 0; row `height` maps past the board, and on 15 x 15 past the arrays |
| `Grid.TileIndex` | src/screens/sweeper_screen.rs:673-686 | corrected mapping: gives an index exactly when the tile is on the board, and that index maps back to the tile |
| `Grid.TileIndexCoversBoard` | src/screens/sweeper_screen.rs:661-671 | every cell of the board is the corrected mapping's image of its own coordinates |
| `Grid.Neighbours` | src/screens/sweeper_screen.rs:506-530 | every neighbour listed is a cell of the board |
| `Grid.NeighboursUnrolled` | src/screens/sweeper_screen.rs:512-527 | the neighbour list is the eight guarded offsets in the order NW, N, NE, E, SE, S, SW, W |
| `Grid.NeighboursSound` | src/screens/sweeper_screen.rs:506-530 | every listed neighbour is a different cell at most one column and one row away |
| `Grid.NeighboursComplete` | src/screens/sweeper_screen.rs:506-530 | every board cell at most one column and one row away is listed |
| `Grid.ReachDistinct` | src/screens/sweeper_screen.rs:506-530 | distinct directions reach distinct tiles |
| `Grid.NeighboursDistinct` | src/screens/sweeper_screen.rs:506-530 | no cell is listed twice |
| `Grid.NeighbourCount` | src/screens/sweeper_screen.rs:506-530 | the number of neighbours is (columns in reach) * (rows in reach) - 1 |
| `Grid.NeighbourBounds` | src/screens/sweeper_screen.rs:506-530 | at most 8 neighbours, at most 3 in a corner, at most 5 on an edge |
| `Markers.ToByte` | src/screens/sweeper_screen.rs:406-416 | the conversion to `u8` gives 0, 1 or 2, and 0 exactly for NONE |
| `Markers.FromByte` | src/screens/sweeper_screen.rs:392-404 | the conversion from `u8` picks the marker whose discriminant is the value modulo 3 |
| `Markers.ByteRoundTrip` | src/screens/sweeper_screen.rs:392-416 | marker to byte and back gives the same marker |
| `Markers.Add` | src/screens/sweeper_screen.rs:384-390 | `+=` yields the marker whose discriminant is the sum of the two modulo 3 |
| `Markers.AddFlaggedIsNext` | src/screens/sweeper_screen.rs:384-404 | adding FLAGGED steps NONE to FLAGGED to QUESTIONED to NONE |
| `Markers.NextThrice` | src/screens/sweeper_screen.rs:384-404 | three right releases on a tile restore its marker |
| `Markers.NextTimesPeriodic` | src/screens/sweeper_screen.rs:384-404 | 3q + r right releases leave the same marker as r |
| `Markers.NextTimesModulo` | src/screens/sweeper_screen.rs:384-404 | only the number of right releases modulo 3 matters |
| `BoardSpec.CrabCountIsMined` | src/screens/sweeper_screen.rs:506-530 | counting mines along a repeat-free list gives the number of mined cells it names |
| `BoardSpec.CrabCountIsCardinality` | src/screens/sweeper_screen.rs:506-530 | counting mines along a repeat-free list counts the set of mined cells it names |
| `BoardSpec.Adjacency` | src/screens/sweeper_screen.rs:506-530 | the count of a cell adds at most one per listed neighbour |
| `BoardSpec.AdjacencyCountsMooreMines` | src/screens/sweeper_screen.rs:506-530 | an adjacency count is the number of mines among the on-board Moore neighbours |
| `BoardSpec.AdjacencyBounds` | src/screens/sweeper_screen.rs:506-530 | an adjacency count is at most 8, at most 3 in a corner, at most 5 on an edge |
| `BoardSpec.ReachedStep` | src/screens/sweeper_screen.rs:706-789 | a zero neighbour of a cell reached through zero cells is reached too |
| `BoardSpec.FreshZeros` | src/screens/sweeper_screen.rs:714-785 | one expanded cell queues exactly its zero neighbours not yet expanded |
| `BoardSpec.WaveSnoc` | src/screens/sweeper_screen.rs:709-786 | a wave grown by one cell adds exactly that cell's fresh zero neighbours to the next wave |
| `BoardSpec.BorderingSnoc` | src/screens/sweeper_screen.rs:709-786 | a wave grown by one cell borders exactly what it bordered before plus that cell's neighbours |
| `BoardSpec.WaveZerosMembers` | src/screens/sweeper_screen.rs:706-789 | a wave queues exactly the unexpanded zero cells next to it |
| `BoardSpec.FloodStart` | src/screens/sweeper_screen.rs:697-704 | the flood fill starts from its invariant: only the clicked cell is newly uncovered, and it is queued iff it is a zero cell |
| `BoardSpec.WaveQueuesReachedZeros` | src/screens/sweeper_screen.rs:706-789 | the next wave holds only unexpanded zero cells of the board joined to the clicked cell |
| `BoardSpec.WaveKeepsJustification` | src/screens/sweeper_screen.rs:706-789 | after a wave, every uncovered cell was uncovered before, is the clicked cell, or borders an expanded cell |
| `BoardSpec.WaveExpands` | src/screens/sweeper_screen.rs:706-789 | after a wave, every queued cell outside the next wave has all its neighbours uncovered and its zero neighbours queued |
| `BoardSpec.WaveShrinksRest` | src/screens/sweeper_screen.rs:706-789 | a nonempty wave of cells never queued before shrinks the set of cells not yet queued, so the wave loop ends |
| `BoardSpec.WaveStep` | src/screens/sweeper_screen.rs:706-789 | one wave keeps the flood-fill invariant and queues only cells never queued, so the loop ends |
| `BoardSpec.FloodDone` | src/screens/sweeper_screen.rs:706-789 | when no wave is left, the queued cells are the clicked cell's zero region, and the uncovered cells are exactly the old ones, the clicked cell and the neighbours of that region |
| `BoardSpec.ZeroRegionUnique` | src/screens/sweeper_screen.rs:697-789 | a cell has one zero region, so a reveal depends only on the board and the cell |
| `BoardSpec.CountOfIsCardinality` | src/screens/sweeper_screen.rs:792-812 | a counter is the size of the set of positions holding the value, so at most the board size |
| `BoardSpec.ResolvedMeansSafeCellsUncovered` | src/screens/sweeper_screen.rs:814-830 | the XOR test holds on every cell iff the uncovered cells are exactly the cells without a mine |
| `BoardSpec.UncoveredMineBlocksWin` | src/screens/sweeper_screen.rs:814-830 | once a mine is uncovered the win test fails |
| `BoardSpec.RemainingFlags` | src/screens/sweeper_screen.rs:142 | corrected flag counter: remaining + flags == mines, negative exactly when the player over-flags |
| `BoardSpec.RemainingFlagsU16` | src/screens/sweeper_screen.rs:142 | as written: the `u16` difference, equal to the intended one without over-flagging and 65536 more with it |
| `BoardSpec.OverFlaggingWrapsAround` | src/screens/sweeper_screen.rs:142 | one mine and two flags: the `u16` counter shows 65535 where -1 is meant |
| `Board.DealtBoardsAgree` | src/screens/sweeper_screen.rs:470-532 | two boards dealt with the same size and draws have the same mines, counts and play state |
| `Board.GameBoard.constructor` | src/screens/sweeper_screen.rs:470-495 | a new board keeps the given settings and is dealt from the draws: mines where a draw is 0, counts filled, all covered and unmarked, game not over |
| `Board.GameBoard.Default` | src/screens/sweeper_screen.rs:440-468 | the default board is 10 x 10 with ratio 10, dealt from the draws |
| `Board.GameBoard.CountAround` | src/screens/sweeper_screen.rs:506-530 | the eight guarded checks of one cell, made one neighbour at a time, give the cell's adjacency count |
| `Board.GameBoard.Init` | src/screens/sweeper_screen.rs:497-532 | cell i of the board is a mine iff draw i is 0; each count is the mines among its neighbours; cells past the board keep their values |
| `Board.GameBoard.RevealBombs` | src/screens/sweeper_screen.rs:687-695 | every mine of the board is uncovered, and nothing else changes |
| `Board.GameBoard.UncoverTiles` | src/screens/sweeper_screen.rs:697-790 | uncovers exactly the clicked cell and every neighbour of its zero region, mines included; a mine or a nonzero cell uncovers itself only; no other field changes |
| `Board.GameBoard.ExpandWave` | src/screens/sweeper_screen.rs:709-786 | one pass over the wave uncovers every neighbour of the wave, and appends its fresh zero cells to the visited list and the next wave |
| `Board.GameBoard.ExpandCell` | src/screens/sweeper_screen.rs:710-785 | the eight checks of one cell uncover its neighbours, and queue its zero neighbours not yet visited, in order |
| `Board.GameBoard.Update` | src/screens/sweeper_screen.rs:620-648 | a left release uncovers as `UncoverTiles` does, and on a mine also loses the game and shows every mine; a right release steps that tile's marker; `gameOver` is not consulted |
| `Board.GameBoard.NumCrabs` | src/screens/sweeper_screen.rs:792-801 | returns the number of mines on the board |
| `Board.GameBoard.NumFlags` | src/screens/sweeper_screen.rs:803-812 | returns the number of cells marked FLAGGED |
| `Board.GameBoard.IsWin` | src/screens/sweeper_screen.rs:814-830 | returns whether every cell is uncovered XOR a mine; a win sets `gameOver` and `win`, and a non-win clears neither |
| `ButtonInput.Pushed` | src/ui_common/button_handler.rs:30-80 | after a push the level is stored and at most one flag is raised. The click flag is raised exactly for a press after no press; held exactly for a press after a press; release exactly for a release after no release. A flagged edge records its position, and the other positions stay |
| `ButtonInput.PressHoldRelease` | src/ui_common/button_handler.rs:30-85 | pressed, pressed, released at (5, 5) on a new handler gives click [T,F,F], held [F,T,F] and release [F,F,T], with the click at the first press and the release at (5, 5) |
| `ButtonInput.ButtonHandler.constructor` | src/ui_common/button_handler.rs:19-28 | no level, no flags and no positions |
| `ButtonInput.ButtonHandler.Push` | src/ui_common/button_handler.rs:30-80 | the handler's new fields are `Pushed` of its old fields |
| `ButtonInput.ButtonHandler.ClearStoredPositions` | src/ui_common/button_handler.rs:82-85 | both positions become none, and the level and flags stay |
| `MouseInput.Resampled` | src/ui_common/mouse_input_handler.rs:39-56 | motion keeps a sampled handler's level and positions, turns a click into held and drops the release flag; an unsampled handler becomes released, with an initial release recorded at the motion point |
| `MouseInput.ResampledSettles` | src/ui_common/mouse_input_handler.rs:39-60 | a second motion event only drops a pending release flag |
| `MouseInput.MouseInputHandler.constructor` | src/ui_common/mouse_input_handler.rs:14-20 | three new, distinct, unsampled handlers and the cursor at (0, 0) |
| `MouseInput.MouseInputHandler.RecordButtonClick` | src/ui_common/mouse_input_handler.rs:22-37 | only the named handler is pushed; another button touches no handler; the cursor is overwritten |
| `MouseInput.MouseInputHandler.RecordMouseMotion` | src/ui_common/mouse_input_handler.rs:39-60 | every handler is re-sampled at its own level, and the cursor is overwritten |
| `MouseInput.MouseInputHandler.ClearStoredPositions` | src/ui_common/mouse_input_handler.rs:62-66 | all three handlers lose both positions and nothing else |
| `Controller.Target` | src/screens/sweeper_screen.rs:109-112 | a change overrides exactly the settings it gives; a reset keeps all three |
| `Controller.PanelCommandsKeepPlayable` | src/screens/sweeper_screen.rs:200-214 | every panel button turns a playable board into a playable one, at most 15 x 15 and ratio at least 1 |
| `Controller.FifteenButtonSetsTen` | src/screens/sweeper_screen.rs:208 | the button labelled 1:15 sets ratio 10 |
| `Controller.ReleasedIndex` | src/screens/sweeper_screen.rs:620-643 | a released tile's index lies on the board and maps back to that tile |
| `Controller.ReleasedIndexOnBoard` | src/screens/sweeper_screen.rs:620-643 | a released tile is acted on exactly when it lies on the board |
| `Controller.SweeperScreen.constructor` | src/screens/sweeper_screen.rs:72-95 | the default 10 x 10 board with ratio 10, dealt from the seed, and a flag counter of 0 |
| `Controller.SweeperScreen.Reset` | src/screens/sweeper_screen.rs:97-107 | a new board with the same settings, dealt from the stored seed |
| `Controller.SweeperScreen.Change` | src/screens/sweeper_screen.rs:109-123 | a new board with the given settings overriding the old ones, dealt from the stored seed |
| `Controller.SweeperScreen.Execute` | src/screens/sweeper_screen.rs:335-375 | a command rebuilds the board with its target settings from the stored seed |
| `Controller.SweeperScreen.Settle` | src/screens/sweeper_screen.rs:142-143 | the flag counter is mines minus flags, then the win test runs |
| `Controller.SweeperScreen.Play` | src/screens/sweeper_screen.rs:135-143 | the board's part of a frame: without a command the releases act on the same board, and a mine release is a loss; a command deals a new board; then the counter is refreshed and a resolved board is won. Without a command `gameOver` ends as before, or lost, or won, and `win` as before or won, unless lost; with a command both end as the new board's win test says |
| `Controller.SweeperScreen.Update` | src/screens/sweeper_screen.rs:131-148 | a frame without a command applies the releases to the same board; a command deals a new board; then the counter is refreshed, a resolved board is won, a mine release is a loss, and all stored mouse positions are cleared; `gameOver` and `win` change only through a loss, a win or a new board |

## Left out

- Drawing and assets are not modelled: `draw_tiles`, `draw_markers`, `draw_text`, the panel's drawing, `AssetCollection` and the sprite batches. They only render.
- Pixel geometry is not modelled: `does_intersect`, `get_offset`, `mouse_input_to_tile_index` and the panel's hover and hit test work on `f32` pixels. A release arrives as a tile (column, row), and a panel command as an optional `Command`.
- Randomness is a parameter. `Rand32` and the `getrandom` seed are foreign code: the board takes a run of draws, and the screen a seed and a generator function assumed to return draws in range.
- The splash and exit screens and `main` are left out. They are timing, process exit and the ggez event loop.
- The `GameScreen` and `ButtonCommand` traits are left out. Commands are the closed datatype `Command`.
- Positions are `real`, not `f32`. No rounding is modelled, since positions are only stored and compared.
- Board.GameBoard.Update: it requires released tiles on the board. As written, an edge release can name tile 0 or a cell past the board; see the findings. The rest of the model feeds it through the corrected `TileIndex`.
- Board.GameBoard.Init: the draws are given in advance, and `Rand32`'s own sequence is not modelled.
- Board.GameBoard.constructor: it requires a board of at most 225 cells and a ratio of at least 1. A larger board would index past the arrays, and ratio 0 makes `rand_range(0..0)` fail. The panel only offers playable settings (`Controller.PanelCommandsKeepPlayable`).
- Controller.SweeperScreen.Settle: the remaining-flags figure is the signed difference `RemainingFlags`, not the `u16` difference of the program (`sweeper_screen.rs:142`), which wraps or panics when flags exceed mines; see the findings.
- Controller.SweeperScreen.Update: a frame with a command does not state what the discarded board did first. That board is dropped at once.
- `u16` wrap-around in `coordinates_to_index` and `index_to_coordinates` is not modelled. On boards of at most 225 cells every product stays below 2^16.
- The adjacency counts are `int` rather than `u8`. They never exceed 8.

## Findings

| source | as written | input that shows it | evidently intended | confidence | as-written member | corrected member |
|---|---|---|---|---|---|---|
| src/screens/sweeper_screen.rs:142 | `num_crabs() - num_flags()` in `u16`: it panics in a debug build and wraps in a release build when flags exceed mines | one mine, two flags: 1 - 2 | the remaining-flags figure goes negative (-1) | not executed | `BoardSpec.OverFlaggingWrapsAround` | `BoardSpec.RemainingFlags` |
| src/screens/sweeper_screen.rs:654 | the board hit test includes the right and bottom edges, so the tile column can be `width` and the row `height`; `coordinates_to_index` then maps column `width` to tile 0 and row `height` past the board | 10 x 10 board, release on its right edge at row 3: column 10 gives index 0. On 10 x 10, a release on the bottom edge gives index 100-109, cells past the board that hold no mine and count 0. On 15 x 15, a release on the bottom edge in column 14 gives index 239, past the 225-cell arrays | a release on the edge hits no tile, or the last one | not executed | `Grid.EdgeReleaseMisses` | `Grid.TileIndex` |
