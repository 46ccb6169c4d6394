# Game of Life — a verified model of the simulation core

This project models the logic of a small browser Game of Life (`main.js`):
the board of cells, the lookup that reads a cell (off the board reads as
dead), the count of the eight neighbours, the generation step with Conway's
rule, and the interaction around it — the space key cycling
`stopped → seeding → playing → stopped`, clicks that flip a cell while
seeding, the animation tick that steps the board every thirtieth frame while
playing and resets it to all-dead while stopped, and the arrow-key cursor
that wraps around the board's edges.

Layout:

- `grid.dfy` (module `Grid`): the board as a dense, column-major list of
  `Pixel(x, y, active)` values (`Dense`), `InitPixels` with its two nested
  loops, the indexed lookup `PixelIsActive`, and the program's own list
  search (`FindPixel`, `PixelIsActiveByFind`) with a proof that the two agree.
- `rules.dfy` (module `Rules`): `CountNeighbors`, its reference definition as
  the size of the set of live cells in the Moore neighbourhood, the rule
  `NextState`, the step `NextFrame`, iterated steps `Generations`, and the
  lemmas about them.
- `patterns.dfy` (module `Patterns`): boards built from a set of live
  cells, the lone cell that dies, the corner count, and the blinker with
  period two.
- `game.dfy` (module `Game`): the state machine, the cursor, the click
  toggle (a loop method proved against the function `Toggled`), the class
  `Life` holding the program's module-level state with its `KeyDown`,
  `Click` and `Tick` handlers, and `Session`, a client that runs the handlers
  through a whole seed–play–stop cycle.

Coordinates are in cell units: the program stores `x` and `y` as multiples
of its cell size (25 pixels), and the model divides that factor out. The
board's width and height in cells are positive parameters.

Notes on what the program does:

- The board is reset to all-dead only by the animation loop's stopped
  branch (`main.js:156-158`). The key handler's own state change never
  touches the board, but entering seeding or playing runs the loop at once
  (`main.js:191-193`), and when the game enters playing that run may step the
  board (`main.js:151-153`); the model leaves that run to a separate `Tick`.
  The stopped branch runs at start-up, and after the space key stops the game it
  runs on the next animation frame only if the game is still stopped then.
  When space is pressed a second time before that frame, the keydown
  handler moves to seeding and runs the loop in its seeding branch
  (`main.js:191-193`, `main.js:147-155`), so the new seeding session starts
  on the old board. `Game.Life.Tick` models the loop, and
  `Game.SpaceTwiceKeepsBoard` shows the second case.
- There is no out-of-bounds error for editing a cell: a click outside the
  board matches no pixel and changes nothing (`Game.ToggleOffBoardIsNoop`).
- There is no invalid-dimension error: the program derives the board size
  from the window and never checks it.

## Model

| member | source | states |
|---|---|---|
| `Grid.InitPixels` | main.js:34-43 | the result is dense — one pixel per cell of the `cols × rows` board, x outer and y inner — and every pixel is dead |
| `Grid.BlankIsUnique` | main.js:34-43 | two dense all-dead boards of one size are equal, so every reset yields exactly the start-up board |
| `Grid.PixelIsActive` | main.js:71-79 | a cell reads alive only if it is on the board; every coordinate off the board reads as dead |
| `Grid.FindPixel` | main.js:75 | `find`: returns the first index whose pixel has the given coordinates, or none when no pixel has them |
| `Grid.PixelIsActiveByFind` | main.js:71-79 | `pixelIsActive` as written: the answer is the liveness of the first pixel at the coordinates, and dead when no pixel matches |
| `Grid.LookupAgreesWithFind` | main.js:71-79 | on a dense board the indexed lookup returns what the list search with its dead default returns, for every coordinate |
| `Grid.DenseExtensional` | main.js:34-43 | a dense board is determined by which of its cells are alive |
| `Rules.CountNeighbors` | main.js:85-112 | the neighbour count is at most 8 |
| `Rules.MooreIsOffsets` | main.js:87-110 | the eight offsets visited are pairwise distinct and are exactly the 3 × 3 block around the cell without the cell |
| `Rules.CountIsLiveNeighbours` | main.js:85-112 | the count equals the number of live cells in the Moore neighbourhood, and the cell itself is never among them |
| `Rules.NextState` | main.js:119-139 | a live cell with fewer than 2 or more than 3 neighbours dies, with 2 or 3 survives; a dead cell is born exactly with 3 |
| `Rules.NextPixel` | main.js:125-139 | the map callback keeps the pixel's coordinates and makes it alive iff it has 3 live neighbours, or 2 and was alive |
| `Rules.NextFrame` | main.js:125-140 | the step keeps the board dense and every pixel's coordinates; only liveness can change |
| `Rules.StepRule` | main.js:125-140 | after the step a cell is alive exactly when it is on the board and the rule holds for its liveness and neighbour count on the board before the step |
| `Rules.StepIsConway` | main.js:119-139 | a cell on the board is alive after the step iff it had 3 live neighbours, or 2 and was alive |
| `Rules.DeadBoardReadsDead` | main.js:71-79 | on an all-dead board every lookup, on or off the board, reads dead |
| `Rules.DeadBoardIsFixed` | main.js:125-140 | the step maps an all-dead board to itself |
| `Rules.Generations` | main.js:151-153 | any number of steps keeps the board dense |
| `Rules.DeadBoardStaysDead` | main.js:151-153 | an all-dead board is unchanged after any number of steps |
| `Patterns.BoardOfIsDense` | main.js:34-43 | any set of cells on the board is the live set of a dense board |
| `Patterns.LonelyCellDies` | main.js:127-138 | a board with a single live cell is all-dead after one step |
| `Patterns.CornerCountsDiagonal` | main.js:85-112 | with only (1, 1) alive, the corner (0, 0) counts one neighbour; the cells off the board count as dead |
| `Patterns.BlinkerTurnsVertical` | main.js:125-140 | on a board of at least 4 × 4 cells whose live cells are (1,2), (2,2), (3,2), the live cells after one step are (2,1), (2,2), (2,3) |
| `Patterns.BlinkerTurnsHorizontal` | main.js:125-140 | the vertical blinker turns back into the horizontal one |
| `Patterns.BlinkerHasPeriodTwo` | main.js:125-140 | the blinker board differs from its next generation and equals the generation after that |
| `Patterns.BlinkerOscillates` | main.js:125-140 | on every board of at least 4 × 4 cells, the step turns the horizontal blinker board into the vertical one and back |
| `Game.NextGameState` | main.js:182-189 | any key but space keeps the state; space moves it one place along the cycle stopped, seeding, playing |
| `Game.SpaceCycles` | main.js:182-189 | three presses of space return to the starting state after visiting all three states |
| `Game.Wrap` | main.js:204-213 | the wrapped coordinate is always on the board, is unchanged when already on it, and is the coordinate modulo the board size one cell past either edge |
| `Game.MoveCursor` | main.js:195-213 | the cursor stays on the board after any key, and from a cell on the board an arrow moves it one cell modulo the board's size |
| `Game.CursorMovesAreInverse` | main.js:195-213 | left undoes right and up undoes down, at the edges too |
| `Game.Toggled` | main.js:172-177 | the click handler's map keeps the length and every pixel's coordinates, and changes a pixel's liveness exactly when it sits at the clicked coordinates |
| `Game.ToggleAt` | main.js:172-177 | the loop flips exactly the pixels at the clicked coordinates and keeps the others |
| `Game.ToggleFlipsOneCell` | main.js:172-177 | a click keeps the board dense, flips the clicked cell when it is on the board and leaves every other cell's liveness unchanged |
| `Game.ToggleOffBoardIsNoop` | main.js:172-177 | a click off the board leaves the board unchanged |
| `Game.ToggleTwiceIsIdentity` | main.js:172-177 | two clicks on the same cell give back the board |
| `Game.Life.constructor` | main.js:7-29 | start-up: a dense all-dead board, state stopped, cursor at (0, 0) |
| `Game.Life.KeyDown` | main.js:180-215 | the new state is the state machine's, the cursor moves and wraps as `MoveCursor` says, the board is untouched, and the cursor stays on the board |
| `Game.Life.Click` | main.js:163-178 | unless seeding the board is unchanged; while seeding the board is the old board with the clicked cell flipped |
| `Game.Life.Tick` | main.js:145-161 | stopped resets the board to all-dead; playing steps it exactly when the frame number is divisible by 30; otherwise the board is unchanged |
| `Game.SpaceTwiceKeepsBoard` | main.js:180-193 | two presses of space from playing, with no run of the loop between them, reach seeding with the board unchanged |
| `Game.Session` | main.js:145-189 | the start-up board is dense and all-dead, and after space, clicks, space, frames, space and one more run of the loop the board equals it |

## Left out

- Drawing: `drawGrid`, `drawPixels`, `init` and the canvas context are rendering, not logic.
- Browser plumbing: `requestAnimationFrame` and `cancelAnimationFrame`, event listener registration, `preventDefault`, `console.log` and the style-sheet import have no logical content here.
- The frame number is a parameter of `Tick`. In the program it is the animation-frame handle.
- The keydown handler's own call of the loop after space enters seeding or playing, and the extra animation chains that call starts, are timing; the model has state transitions and a separate `Tick`. With it goes the order in which key presses and animation frames interleave, so the model does not decide whether the stopped branch runs between two presses of space; `Game.SpaceTwiceKeepsBoard` covers the case where it does not.
- Board size: the program derives the number of columns and rows from the window size with `Math.floor`; the model takes them as positive parameters. A window narrower or lower than one cell (a zero-size board) is not modelled.
- Click position: the conversion of `clientX`/`clientY` to a cell by `Math.floor(clientX / pixelSize)` is not modelled; `Click` takes cell coordinates.
- `pixelIsActive` searches the list; the model reads the list by index and proves the two agree on every board the program builds (`Grid.LookupAgreesWithFind`).
- Pixels are JavaScript objects that the click handler mutates in place; the model treats them as values, which is the same here because only the board list refers to them.
