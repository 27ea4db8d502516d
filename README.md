# Tetris game logic, modelled in Dafny

This project models the game logic of the Go Tetris in this repository. Three
front ends (webgl, glfw, sdl) each carry their own copy of the `gamestate`
package. There are two copies of `tetronimoes`, plus the keyboard event
buffer and key-state handler that feed the game its inputs.

- `grids.dfy` (module `Grids`): square boolean grids and the three matrix
  loops rotation is built from: `transpose`, `reverse` (one row) and
  `reverseColumns` (the row order). Each is a method with its loops, proved
  to compute a specification function. The algebra of those functions is
  proved as lemmas: involutions, the four-fold rotation, the undo of one
  rotation by the other, and preservation of the filled-point count.
- `tetronimoes.dfy` (module `Tetronimoes`): the seven pieces, their colours in
  both builds (float channels for glfw/webgl, byte channels for sdl), the
  `Shape` class whose rotations reassign its grid, and `NewRandomShape`.
- `rules.dfy` (module `Rules`): the board simulation as values. A board is
  Height (20) rows of Width (10) cells, each empty or a coloured block. It
  defines the collision test, landing, the line clear as each loop is written,
  spawning, gravity, `Step`, the hard drop, and the try-then-revert moves. It
  also proves their properties.
- `gamestate.dfy` (module `Gamestate`): the `State` class. Its `board` is an
  array of rows that the line clear shifts in place, and `falling` is the
  current `Shape` or null. Each method runs the source's loops and is proved
  to produce exactly the value of its `Rules` function: `BoardIntersects` of
  `Intersects`, `AddToBoard` of `Land`, `ClearRowsBottomLeft` of
  `ClearUpFrom`, `ClearRowsTopLeft` of `ClearDownFrom`, `Descend` of
  `Gravity`, `Step` of `Stepped`, `DropAll` of `HardDropped`, the three `Try`
  methods of `TryRotateCCW`, `TryRotateCW` and `TryShift`, `ApplyMoves` of
  `MovesApplied`, and `ApplyInputs` of `InputsApplied`.
- `keyboard.dfy` (module `Keyboard`): the double-buffered key event list (the
  webgl handler's copy and the glfw `keyevent.go` copy are the same code), and
  the `Handler`. The handler folds one frame's events into a map from keys to
  pressed, and keeps the previous frame's map for edge detection.

The two gravity conventions are one class with a `variant` field:

- `BottomLeft` is webgl and glfw. Row 0 is the bottom row, gravity decrements
  Y, a piece spawns against the top, and the collision test checks only
  `row < 0`. Its line clear scans upwards.
- `TopLeft` is sdl. Row 0 is the top row, gravity increments Y, a piece
  spawns at row 0, and the collision test checks only `row >= Height`. Its
  line clear scans downwards.

The piece origin is a float32 pair in the source that only ever holds whole
numbers, so it is an `int` pair here. The random choice of `NewRandomShape`
is a parameter. A colour is a value of four reals.

Two behaviours of the code are modelled as written, not as the comments
describe them:

- The line-clear loops advance their index after removing a row. When two
  full rows are adjacent in scan order, the second slides into the cleared
  index and stays on the board for that `Step`. `AdjacentFullRowSurvives`
  proves this for both directions.
- `reverseColumns` loops while `row <= len/2`. On an even size that swaps the
  two middle rows twice, so a 2x2 grid comes back unchanged. A counter-clockwise
  turn followed by the clockwise revert, and the reverse order, therefore
  restore every grid of odd size and the all-filled 2x2 piece, but not an
  arbitrary even grid: `RevertFailsOnUnevenTwoByTwo` gives a 2x2 grid that
  neither order restores. Every shipped piece is odd-sized or the
  full 2x2 O (`ShippedGrids`). The falling piece's invariant carries this
  condition, so the try-then-revert of a rotation is exact in the game.

## Model

| member | source | states |
|---|---|---|
| Grids.Transpose | glfw-tetris/tetronimoes/tetronimoes.go:162-174 | the pairwise loop from the diagonal outwards returns the grid with ret[i][j] = a[j][i]; it also covers the copy at sdl-tetris/tetronimoes/tetronimoes.go:163-175 |
| Grids.Transposed | glfw-tetris/tetronimoes/tetronimoes.go:162-174 | the transpose of a square grid is square of the same size, with every point mirrored across the diagonal |
| Grids.TransposeInvolution | glfw-tetris/tetronimoes/tetronimoes.go:162-174 | transposing twice gives back the grid |
| Grids.Reverse | glfw-tetris/tetronimoes/tetronimoes.go:176-181 | swapping a[i] with a[n-1-i] for i < n/2 yields the row read backwards; it also covers the copy at sdl-tetris/tetronimoes/tetronimoes.go:177-182 |
| Grids.Reversed | glfw-tetris/tetronimoes/tetronimoes.go:176-181 | the reversed row has the same length, and element k is element n-1-k of the input |
| Grids.ReverseInvolution | glfw-tetris/tetronimoes/tetronimoes.go:176-181 | reversing twice gives back the row |
| Grids.ReverseColumns | glfw-tetris/tetronimoes/tetronimoes.go:194-201 | the loop over row <= len/2, swapping whole rows column by column, yields ReversedColumns of the input; it also covers the copy at sdl-tetris/tetronimoes/tetronimoes.go:195-202 |
| Grids.SwapRows | glfw-tetris/tetronimoes/tetronimoes.go:196-198 | the inner column loop leaves rows i and j traded point by point and every other row unchanged |
| Grids.SwapStep | glfw-tetris/tetronimoes/tetronimoes.go:195-199 | one more iteration of the swap loop moves the pair (row, n-1-row) exactly as the loop's row-source bookkeeping says |
| Grids.RowSource | glfw-tetris/tetronimoes/tetronimoes.go:194-201 | every result row comes from a row of the input |
| Grids.ReversedColumns | glfw-tetris/tetronimoes/tetronimoes.go:194-201 | the result is square and the same size as the input |
| Grids.ReversedColumnsOddSize | glfw-tetris/tetronimoes/tetronimoes.go:194-201 | on an odd size, row k of the result is row n-1-k of the input |
| Grids.ReversedColumnsEvenSize | glfw-tetris/tetronimoes/tetronimoes.go:194-201 | on an even size the two middle rows stay where they were, and a 2x2 grid is returned unchanged |
| Grids.RotatedCW | glfw-tetris/tetronimoes/tetronimoes.go:23-28 | transpose then reverse each row puts old[n-1-j][i] at [i][j], keeping the grid square |
| Grids.RotatedCCW | glfw-tetris/tetronimoes/tetronimoes.go:32-35 | transpose then reverseColumns puts old[j][RowSource(n, k)] at [k][j], keeping the grid square |
| Grids.UpsideDown | glfw-tetris/tetronimoes/tetronimoes.go:23-28 | the upside-down grid is square of the same size and holds old[n-1-i][n-1-j] at [i][j] |
| Grids.HalfTurn | glfw-tetris/tetronimoes/tetronimoes.go:23-28 | two clockwise turns turn the grid upside down |
| Grids.UpsideDownInvolution | glfw-tetris/tetronimoes/tetronimoes.go:23-28 | turning a grid upside down twice gives it back |
| Grids.RotateFourTimes | glfw-tetris/tetronimoes/tetronimoes.go:23-28 | four clockwise turns give back the grid |
| Grids.RowSourceInvolution | glfw-tetris/tetronimoes/tetronimoes.go:194-201 | taking the row source twice returns the original index |
| Grids.RotationsUndoEachOther | glfw-tetris/tetronimoes/tetronimoes.go:23-35 | on an odd-sized or all-filled grid, a clockwise turn and a counter-clockwise turn undo each other in both orders |
| Grids.RevertFailsOnUnevenTwoByTwo | sdl-tetris/tetronimoes/tetronimoes.go:195-202 | on the 2x2 grid with one filled corner, neither a clockwise turn followed by a counter-clockwise turn nor the reverse order restores the grid |
| Grids.RotationsKeepInvertible | glfw-tetris/tetronimoes/tetronimoes.go:23-35 | both rotations keep a grid odd-sized or all-filled |
| Grids.GridExtensionality | glfw-tetris/tetronimoes/tetronimoes.go:162-174 | two square grids of one size that agree point by point are equal |
| Grids.InjectiveImageSize | glfw-tetris/tetronimoes/tetronimoes.go:23-35 | an injective map keeps the size of a set of points |
| Grids.ClockwiseKeepsFilledCount | glfw-tetris/tetronimoes/tetronimoes.go:23-28 | a clockwise turn keeps the number of filled points |
| Grids.CounterClockwiseKeepsFilledCount | sdl-tetris/tetronimoes/tetronimoes.go:33-36 | a counter-clockwise turn keeps the number of filled points, even-size quirk included |
| Tetronimoes.ShippedGrids | glfw-tetris/tetronimoes/tetronimoes.go:54-159 | each of the seven pieces is square, of size 2, 3 or 5, and is odd-sized or all-filled; it also covers the copy at sdl-tetris/tetronimoes/tetronimoes.go:55-160 |
| Tetronimoes.ShippedCounts | glfw-tetris/tetronimoes/tetronimoes.go:54-159 | each of the seven pieces has exactly four filled points; it also covers the copy at sdl-tetris/tetronimoes/tetronimoes.go:55-160 |
| Tetronimoes.LineCount | glfw-tetris/tetronimoes/tetronimoes.go:87-100 | the 5x5 Line grid has exactly four filled points |
| Tetronimoes.SmallCount | glfw-tetris/tetronimoes/tetronimoes.go:54-159 | every 3x3 shipped grid has exactly four filled points |
| Tetronimoes.FilledCellsAre | glfw-tetris/tetronimoes/tetronimoes.go:54-159 | a grid whose filled points are exactly a given set of cells has that set as its filled cells |
| Tetronimoes.Shape.constructor | glfw-tetris/tetronimoes/tetronimoes.go:54-68 | a new piece has its kind's grid and colour and origin (0, 0) |
| Tetronimoes.Shape.RotateClockwise | glfw-tetris/tetronimoes/tetronimoes.go:23-28 | the grid becomes its clockwise turn; origin and colour are unchanged; it also covers the copy at sdl-tetris/tetronimoes/tetronimoes.go:23-28 |
| Tetronimoes.Shape.RotateCounterClockwise | glfw-tetris/tetronimoes/tetronimoes.go:32-35 | the grid becomes its counter-clockwise turn; origin and colour are unchanged; it also covers the copy at sdl-tetris/tetronimoes/tetronimoes.go:33-36 |
| Tetronimoes.NewRandomShape | glfw-tetris/tetronimoes/tetronimoes.go:46-49 | the result is a fresh piece built by the constructor at the chosen index of the seven; it also covers the copy at sdl-tetris/tetronimoes/tetronimoes.go:47-50 |
| Rules.EmptyRow | webgl-tetris/gamestate/gamestate.go:104 | a fresh row has Width cells, all empty, and is not full |
| Rules.EmptyBoard | webgl-tetris/gamestate/gamestate.go:42-48 | the new board has Height rows of Width cells, all empty |
| Rules.FullAndClearExclusive | sdl-tetris/gamestate/gamestate.go:93-108 | a non-empty row cannot be both filled and empty |
| Rules.FullRowBlocks | webgl-tetris/gamestate/gamestate.go:90-97 | a filled row holds one block per cell |
| Rules.ClearRowBlocks | sdl-tetris/gamestate/gamestate.go:101-108 | an empty row holds no block |
| Rules.BlockCountAppend | webgl-tetris/gamestate/gamestate.go:101-112 | the block count of two stacks of rows is the sum of their counts |
| Rules.BlockCountSplit | webgl-tetris/gamestate/gamestate.go:101-112 | the block count is the count below a row, plus that row's count, plus the count above it |
| Rules.RemoveRow | webgl-tetris/gamestate/gamestate.go:104-110 | removing a row keeps the number of rows |
| Rules.RemoveRowWellFormed | webgl-tetris/gamestate/gamestate.go:104-110 | removing a row from a Height x Width board leaves a Height x Width board |
| Rules.RemoveRowBottomLeft | webgl-tetris/gamestate/gamestate.go:104-110 | the rows below i stay, the rows above i move down one place, and an empty row enters at the top |
| Rules.RemoveRowTopLeft | sdl-tetris/gamestate/gamestate.go:115-121 | the rows with index above i stay, those below it move one place towards i, and an empty row enters at row 0 |
| Rules.RemoveRowDropsWidth | webgl-tetris/gamestate/gamestate.go:101-112 | removing a full row lowers the landed-block count by exactly Width |
| Rules.ClearUpFrom | webgl-tetris/gamestate/gamestate.go:101-112 | the upward scan keeps the board Height x Width |
| Rules.ClearDownFrom | sdl-tetris/gamestate/gamestate.go:112-123 | the downward scan keeps the board Height x Width |
| Rules.ClearFullRows | glfw-tetris/gamestate/gamestate.go:109-120 | the line clear of either direction keeps the board Height x Width |
| Rules.ClearUpFromKeepsBelow | webgl-tetris/gamestate/gamestate.go:101-112 | rows the upward scan has already passed are never changed again |
| Rules.ClearDownFromKeepsAbove | sdl-tetris/gamestate/gamestate.go:112-123 | rows the downward scan has already passed are never changed again |
| Rules.ClearUpFromSkipsNonFull | webgl-tetris/gamestate/gamestate.go:101-112 | scanning up over rows that are not full changes nothing |
| Rules.ClearDownFromSkipsNonFull | sdl-tetris/gamestate/gamestate.go:112-123 | scanning down over rows that are not full changes nothing |
| Rules.NoFullRowNoChange | glfw-tetris/gamestate/gamestate.go:109-120 | a board with no full row comes out of the line clear unchanged |
| Rules.RemoveRowKeepsNonFull | webgl-tetris/gamestate/gamestate.go:104-110 | after removing the only full row, no row the scan still visits is full |
| Rules.SingleFullRowCleared | webgl-tetris/gamestate/gamestate.go:101-112 | with exactly one full row, the line clear removes that row and nothing else, and the block count drops by Width; it also covers the top-left copy at sdl-tetris/gamestate/gamestate.go:112-123 |
| Rules.AdjacentFullRowSurvives | webgl-tetris/gamestate/gamestate.go:101-112 | when the first full row met is followed in scan order by another full row, the second is still full at the cleared index after the pass; it also covers the top-left copy at sdl-tetris/gamestate/gamestate.go:112-123 |
| Rules.FreeMeansInBounds | webgl-tetris/gamestate/gamestate.go:197-204 | a piece that intersects nothing has every filled point on the board |
| Rules.Land | webgl-tetris/gamestate/gamestate.go:214-234 | landing keeps the board's shape, and a cell changes only if it lies under a filled point and now holds the piece's colour |
| Rules.LandOnlyFillsVacantCells | webgl-tetris/gamestate/gamestate.go:226-230 | landing never overwrites a block |
| Rules.LandWithoutOverlap | webgl-tetris/gamestate/gamestate.go:214-234 | when no filled point lands on a block, every cell under a filled point gets the piece's colour |
| Rules.FreeMeansNoCollision | webgl-tetris/gamestate/gamestate.go:182-212 | a piece that does not intersect the board has no filled point on a block |
| Rules.RowsExtensionality | webgl-tetris/gamestate/gamestate.go:214-234 | two boards of one shape that agree cell by cell are equal |
| Rules.LandStopsAt | sdl-tetris/gamestate/gamestate.go:224-244 | meeting the first occupied target leaves exactly the writes made before it in column-major order |
| Rules.LandCompletes | glfw-tetris/gamestate/gamestate.go:215-235 | visiting every point without meeting a block writes the colour under all filled points |
| Rules.FilledAfterWrite | webgl-tetris/gamestate/gamestate.go:225-231 | writing the colour under the visited filled point extends the written region by that point |
| Rules.FilledAfterSkip | webgl-tetris/gamestate/gamestate.go:225 | passing over an empty point of the grid writes nothing |
| Rules.ClearAfterVisit | webgl-tetris/gamestate/gamestate.go:225-229 | a visited point whose target is free keeps the visited region free of collisions |
| Rules.ColumnDone | webgl-tetris/gamestate/gamestate.go:223-224 | finishing the rows of column j is starting column j+1 |
| Rules.LandVisit | webgl-tetris/gamestate/gamestate.go:225-231 | one visit of the landing loop: the target still holds its old value; an occupied target under a filled point ends the landing with the board equal to Land; otherwise the visited region grows by one point |
| Rules.LandWellFormed | webgl-tetris/gamestate/gamestate.go:214-234 | landing keeps the board Height x Width |
| Rules.Spawn | webgl-tetris/gamestate/gamestate.go:117-122 | the new piece sits at X = Width/2 - N/2 with its box against the spawn edge: Y = Height - N bottom-left, Y = 0 top-left; it lies on the board; it also covers the top-left copy at sdl-tetris/gamestate/gamestate.go:128-133 |
| Rules.Gravity | webgl-tetris/gamestate/gamestate.go:126-132 | the piece moves one row towards the far edge exactly when the moved piece intersects nothing, and the board is untouched; otherwise it lands at its old place on that board and nothing is falling; it also covers the top-left copy at sdl-tetris/gamestate/gamestate.go:137-143 |
| Rules.Stepped | glfw-tetris/gamestate/gamestate.go:107-141 | a step keeps the board Height x Width and the falling piece on the board, with its box behind the spawn edge |
| Rules.SteppedOutcome | webgl-tetris/gamestate/gamestate.go:99-133 | when the piece moved one row intersects nothing on the cleared board, the step leaves the cleared board with the piece one row further; when it intersects, the step leaves the piece landed on the cleared board and nothing falling |
| Rules.SpawnedOFallsFree | webgl-tetris/gamestate/gamestate.go:117-132 | on an empty board the freshly spawned O can move one row without intersecting |
| Rules.FirstStepOnEmptyBoard | webgl-tetris/gamestate/gamestate.go:99-133 | the first Step on an empty board with the O chosen leaves the board empty and the O one row below its spawn position |
| Rules.DropMeasure | webgl-tetris/gamestate/gamestate.go:198-200 | the rows a falling piece can still fall number between 1 and Height |
| Rules.SteppedLowersDrop | webgl-tetris/gamestate/gamestate.go:53-57 | a step that leaves the piece falling leaves it one row closer to the far edge |
| Rules.HardDropped | webgl-tetris/gamestate/gamestate.go:53-57 | repeating Step from a falling piece ends with a valid board and nothing falling |
| Rules.DropSteps | webgl-tetris/gamestate/gamestate.go:53-57 | a hard drop takes at least one and at most Height steps |
| Rules.SteppedTimes | webgl-tetris/gamestate/gamestate.go:54-56 | Step repeated n times keeps the board Height x Width and any falling piece on the board |
| Rules.HardDropIsDropSteps | webgl-tetris/gamestate/gamestate.go:54-56 | the hard drop equals DropSteps repeated Steps, with a piece still falling before each of them, so the loop runs at most Height times |
| Rules.TryShift | webgl-tetris/gamestate/gamestate.go:74-87 | the shift by dx is kept exactly when the moved piece intersects nothing, otherwise the piece is exactly as before; its grid, row and colour never change |
| Rules.TryRotateCCW | webgl-tetris/gamestate/gamestate.go:62-67 | the counter-clockwise turn is kept exactly when the turned piece intersects nothing, otherwise the piece is exactly as before; its origin and colour never change |
| Rules.TryRotateCW | webgl-tetris/gamestate/gamestate.go:68-73 | the clockwise turn is kept exactly when the turned piece intersects nothing, otherwise the piece is exactly as before; its origin and colour never change |
| Rules.MovesApplied | webgl-tetris/gamestate/gamestate.go:62-87 | Up, Down, Left and Right in turn keep the piece on the board, never change its row or colour, and move it at most one column either way |
| Rules.InputsApplied | webgl-tetris/gamestate/gamestate.go:51-88 | with nothing falling the state is unchanged; a Space edge with a piece falling gives HardDropped; otherwise the board is unchanged and the piece goes through MovesApplied; the result is always a valid game |
| Gamestate.Filled | webgl-tetris/gamestate/gamestate.go:90-97 | the early-return loop answers true exactly when every cell holds a block; it also covers the copies at sdl-tetris/gamestate/gamestate.go:93-100, glfw-tetris/gamestate/gamestate.go:90-97 |
| Gamestate.Empty | sdl-tetris/gamestate/gamestate.go:101-108 | the early-return loop answers true exactly when no cell holds a block; it also covers the copy at glfw-tetris/gamestate/gamestate.go:98-105 |
| Gamestate.State.constructor | webgl-tetris/gamestate/gamestate.go:42-48 | NewState: a fresh board of Height empty rows of Width cells, and no falling piece; it also covers the copies at sdl-tetris/gamestate/gamestate.go:45-51, glfw-tetris/gamestate/gamestate.go:42-48 |
| Gamestate.State.BoardIntersects | webgl-tetris/gamestate/gamestate.go:182-212 | false for a nil shape; otherwise true iff some filled point of the N x N box has row < 0 (row >= Height in the top-left sdl copy), a column outside [0, Width), or an occupied target; empty box points are ignored; it also covers the copies at sdl-tetris/gamestate/gamestate.go:192-222, glfw-tetris/gamestate/gamestate.go:183-213 |
| Gamestate.State.AddToBoard | webgl-tetris/gamestate/gamestate.go:214-234 | the board becomes Land of the old board: colour under each filled point in column-major order, stopping at the first occupied target; a nil shape changes nothing; it also covers the copies at sdl-tetris/gamestate/gamestate.go:224-244, glfw-tetris/gamestate/gamestate.go:215-235 |
| Gamestate.State.LandColumn | webgl-tetris/gamestate/gamestate.go:224-232 | one column of the landing loop: either it met an occupied target and the board is Land of the original, or every point up to the end of the column is visited and written |
| Gamestate.State.ShiftDownOnto | webgl-tetris/gamestate/gamestate.go:104-110 | emptying row i, copying each row above one place down and emptying the top row yields RemoveRow bottom-left |
| Gamestate.State.ShiftUpOnto | sdl-tetris/gamestate/gamestate.go:115-121 | emptying row i, copying each row with smaller index one place up and emptying row 0 yields RemoveRow top-left |
| Gamestate.State.ClearRowsBottomLeft | webgl-tetris/gamestate/gamestate.go:101-112 | the upward scan leaves the board equal to ClearUpFrom of the old board from row 0; it also covers the copy at glfw-tetris/gamestate/gamestate.go:109-120 |
| Gamestate.State.ClearRowsTopLeft | sdl-tetris/gamestate/gamestate.go:112-123 | the downward scan leaves the board equal to ClearDownFrom of the old board from row Height-1 |
| Gamestate.State.Step | webgl-tetris/gamestate/gamestate.go:99-133 | the new state is Stepped of the old one with the chosen kind: clear, spawn if nothing falls, then fall one row or land; the falling piece stays on the board; it also covers the copies at sdl-tetris/gamestate/gamestate.go:110-144, glfw-tetris/gamestate/gamestate.go:107-141 |
| Gamestate.State.SpawnIfIdle | webgl-tetris/gamestate/gamestate.go:117-122 | with nothing falling, a fresh piece of the chosen kind appears at the Spawn position; a falling piece is left as it is; it also covers the top-left copy at sdl-tetris/gamestate/gamestate.go:128-133 |
| Gamestate.State.Descend | webgl-tetris/gamestate/gamestate.go:126-132 | the new state is Gravity of the old board and piece: moved one row down, or landed and cleared; it also covers the top-left copy at sdl-tetris/gamestate/gamestate.go:137-143 |
| Gamestate.State.DropAll | webgl-tetris/gamestate/gamestate.go:54-56 | Step runs until nothing is falling, and the result is HardDropped of the old state |
| Gamestate.State.TryRotateCounterClockwise | webgl-tetris/gamestate/gamestate.go:62-67 | the piece becomes TryRotateCCW of itself on the current board |
| Gamestate.State.TryRotateClockwise | webgl-tetris/gamestate/gamestate.go:68-73 | the piece becomes TryRotateCW of itself on the current board |
| Gamestate.State.TryMove | webgl-tetris/gamestate/gamestate.go:74-87 | the piece becomes TryShift of itself by dx on the current board |
| Gamestate.State.ApplyMoves | webgl-tetris/gamestate/gamestate.go:62-87 | the piece becomes MovesApplied of itself on the current board for the frame's key edges |
| Gamestate.State.ApplyInputs | webgl-tetris/gamestate/gamestate.go:51-88 | the new state is InputsApplied of the old one with the handler's key edges: hard drop on a Space edge, then Up, Down, Left, Right each tried and reverted on intersection; it also covers the copies at sdl-tetris/gamestate/gamestate.go:54-91, glfw-tetris/gamestate/gamestate.go:51-88 |
| Keyboard.KeyEventList.constructor | glfw-tetris/window/keyboard/keyevent.go:16-19 | a new event list is empty; it also covers the copy at webgl-tetris/keyboard/handler.go:25-28 |
| Keyboard.KeyEventList.Callback | glfw-tetris/window/keyboard/keyevent.go:35-38 | exactly one event is appended at the end, whatever the length, so EventListCap is no limit; it also covers the copy at webgl-tetris/keyboard/handler.go:44-47 |
| Keyboard.KeyEventList.Freeze | glfw-tetris/window/keyboard/keyevent.go:23-30 | returns exactly the events gathered since the last freeze, in order, and leaves the list empty; it also covers the copy at webgl-tetris/keyboard/handler.go:32-39 |
| Keyboard.FreezeThenCallback | glfw-tetris/window/keyboard/keyevent.go:27-29 | an event appended after a freeze goes into the new list and does not change the snapshot |
| Keyboard.SetState | webgl-tetris/keyboard/handler.go:74-83 | Press maps the key to true, Release to false, any other action changes nothing; other keys are never touched |
| Keyboard.Handler.SetKeyState | webgl-tetris/keyboard/handler.go:74-83 | the handler's map becomes SetState of the old map |
| Keyboard.ReplaySnoc | webgl-tetris/keyboard/handler.go:68-72 | processing one more event applies it after all earlier ones |
| Keyboard.ReplayAppend | webgl-tetris/keyboard/handler.go:68-72 | processing two batches in turn equals processing them joined |
| Keyboard.ReplayKeepsUntouchedKey | webgl-tetris/keyboard/handler.go:68-83 | a key no Press or Release event names keeps its entry, or its absence |
| Keyboard.LastEventDecides | webgl-tetris/keyboard/handler.go:68-83 | the last Press or Release for a key decides whether it reads as pressed |
| Keyboard.Handler.Process | webgl-tetris/keyboard/handler.go:68-72 | the map becomes the events applied in order to the old map |
| Keyboard.Handler.GetCallback | webgl-tetris/keyboard/handler.go:86-91 | the callback is the handler's event list, and is nil iff there is none |
| Keyboard.Handler.Update | webgl-tetris/keyboard/handler.go:95-102 | the previous map becomes the old current map, the current map is rebuilt from an empty map with this frame's events only, and the list is emptied |
| Keyboard.UnpressedKeyReadsReleased | webgl-tetris/keyboard/handler.go:95-102 | starting from a map where the key reads false, a frame with no Press of the key leaves it reading false, so after Update a key with no new event is not pressed |
| Keyboard.Handler.constructor | webgl-tetris/keyboard/handler.go:57-64 | a new handler has empty maps and a fresh, empty event list |
| Keyboard.NewHandler | webgl-tetris/keyboard/handler.go:57-64 | returns a fresh handler and its event list as the callback |

`Keyboard.Lookup`, `Keyboard.Handler.IsKeyDown`, `WasKeyDown` and the ten
named getters (webgl-tetris/keyboard/handler.go:111-147) read the current or
previous map. A key absent from the map reads false, Go's zero value for a map
lookup. `Keyboard.Replay` is `process` as a fold. `Gamestate.EdgesOf` is
the five "pressed now and not before" tests of `ApplyInputs`.

## Left out

- `Draw` and `Print` in each gamestate file: pixel arithmetic and OpenGL, SDL or stdout calls only.
- Logging through `log` and `fmt`: side effects only.
- The `Origin`, `Points` and `Color` getters of `Shape`: `Snapshot` and the fields stand for them.
- float32 colour channels: a colour is four exact reals, and float32 rounding of the literal values is not modelled.
- float32 origin coordinates: they only ever hold whole numbers, so they are integers. The `int(...)` conversions in the loops are the identity on them.
- Random shape selection (`rand.Seed`, `rand.Intn`): the index is a parameter of `NewRandomShape` and `Step`. The hard drop passes index 0, which is never used, because a Step with a piece falling does not spawn.
- `copy(s.board[j], s.board[j+1])` is modelled as assigning the row value. All rows have Width cells, so the contents are equal and the rows stay separate.
- `reverse` and `reverseColumns` swap inside the slice they are given. Here they return the reordered value, and the `Shape` rotation reassigns its grid. Rotation works on a fresh transposed grid, so no other holder of the old grid sees a change either way.
- Gamestate.State.BoardIntersects: requires that no filled point of the shape lie beyond the spawn edge. The source would index outside the board there. The game keeps this true for the falling piece.
- Gamestate.State.AddToBoard: requires every filled point to be on the board. The source panics only when the loop reaches an off-board point before it stops. Every caller in the game lands a piece whose points are all on the board.
- Keyboard.Handler.Update: requires an event list. The source would dereference a nil pointer without one.
- The nil-shape paths of `BoardIntersects` and `AddToBoard` are modelled, but the game never takes them.
- The sdl keyboard handler, sdl-tetris/keyboard/handler.go: it copies the SDL keyboard state array through a foreign call. `Rules.InputsApplied` takes the five key edges as a value, so it covers every build. `Gamestate.EdgesOf` computes them only for the webgl `Handler`. The sdl handler samples which keys are held each frame, so its edges can differ from the webgl ones. A key held over several frames, then released and pressed again within one frame, gives the webgl handler an edge and the sdl handler none.
- Grids.ReverseColumns: requires a non-empty grid. The source reads `len(a[0])` and panics on an empty one. No grid in the game is empty.
- The glfw build's keyboard handler (package `omustardo/window/keyboard`) is not part of this model. Its `keyevent.go` event list is.
- The root `gamestate/gamestate.go` and `tetronimoes/tetronimoes.go` are unfinished drafts and are not part of this model.
- The window, frame loop and timers in every `main.go`: calling `Update`, `ApplyInputs` and sometimes `Step` in turn is a sequence of the modelled methods.
- `Handler.String`: string formatting for display only.
