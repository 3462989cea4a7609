# Lights Out board engine in Dafny

A model of the board engine of the `Board` component of a Lights Out game.
The board is a rectangular grid of `nrows` by `ncols` lights. A click on a
cell toggles that cell and its four orthogonal neighbours. Neighbours that
fall off the board are skipped. The game is won when every light is off.

The project has four modules:

- `Wrappers` (`wrappers.dfy`): an `Option` type. `None` stands for
  JavaScript's `NaN` or `undefined`.
- `Coord` (`coord.dfy`): the cell key `${y}-${x}` that the render loop
  attaches to each cell, and the way the click handler reads it back with
  `split("-").map(Number)`. Both `split` and `Number` are modelled on the
  strings a key can contain.
- `Grid` (`grid.dfy`): the board as a value (`seq<seq<bool>>`). It holds
  the specification functions `FlipCell`, `FlipAround` and `HasWon`, and
  the lemmas about them.
- `Engine` (`engine.dfy`): the imperative code on an `array2<bool>`.
  - `CreateBoard` fills the board with nested loops.
  - `CopyBoard` is the row-by-row copy.
  - `FlipCellInPlace` is `flipCell`.
  - `FlipCellsAround` is the click handler: parse, copy, five toggles.
  - `BoardHasWon` is the win check.

The methods are proved against the value functions as follows:

- `FlipCellInPlace` leaves the array equal to `Grid.FlipCell` of its previous cells.
- `FlipCellsAround` returns an array equal to `Engine.Click` of the old cells. `Click` is `Grid.FlipAround` at the parsed key, or the unchanged board when the key does not parse.
- `BoardHasWon` is a function. It is `Grid.HasWon` applied to the array's cells.
- `CreateBoard` and `CopyBoard` state their result cell by cell. The result of `CreateBoard` is the oracle's draw for each cell. The result of `CopyBoard` is the old board's value for each cell.

Two choices follow the code's own behaviour:

- `flipCell` checks bounds for all five positions, including the clicked one (src/Board.js:61). The model therefore accepts any integer coordinate.
- `createBoard` also accepts 0 rows or columns (src/Board.js:37-43). With 0 rows the board is empty. With 0 columns it is `nrows` empty rows. The model therefore accepts any natural numbers.

The code compares against the component's `nrows`/`ncols` props, not the
board's own size. The model passes these props explicitly. It requires the
board to have exactly that shape. `CreateBoard` establishes this shape and
`FlipCellsAround` preserves it.

## Model

| member | source | states |
|---|---|---|
| `Coord.ToNumber` | src/Board.js:56 | `Number` gives a value exactly when the piece is all decimal digits; otherwise it gives NaN. The empty piece gives 0. |
| `Coord.DecimalString` | src/Board.js:104 | A number printed by the template literal is a non-empty string of decimal digits, so it never contains `-`. This holds for values below 10^21, the only values the render loop produces. |
| `Coord.FormatCoord` | src/Board.js:104 | The key `${y}-${x}` splits at `-` into exactly two pieces: the printed `y` and the printed `x`. |
| `Coord.Split` | src/Board.js:56 | `split("-")` returns at least one piece. No piece contains `-`. Joining the pieces with `-` gives back the original string. |
| `Coord.ParseCoord` | src/Board.js:56 | A key without `-` gives `None` (`x` is `undefined`). A first or second piece that is NaN also gives `None`. When there are at least two pieces and both are numbers, the result is the pair of their `Number` values. |
| `Coord.ToNumberOfDecimal` | src/Board.js:104 | Reading back a number printed by the template literal gives the same number. |
| `Coord.SplitNoSep` | src/Board.js:56 | `split("-")` of a string with no `-` gives just that string. |
| `Coord.SplitAfterPiece` | src/Board.js:56 | `split("-")` of `a-b`, where `a` has no `-`, gives `a` followed by the pieces of `b`. |
| `Coord.ParseFormat` | src/Board.js:56 | Formatting a non-negative pair as `${y}-${x}` (line 104) and parsing it back gives the same pair. |
| `Grid.FlipCell` | src/Board.js:58-65 | `flipCell` keeps the board's shape of `nrows` rows of `ncols` cells. |
| `Grid.FlipCellAt` | src/Board.js:61-63 | `flipCell(y, x)` inverts cell (y, x) when it is on the board. No other cell changes, and nothing changes when (y, x) is off the board. |
| `Grid.FlipAround` | src/Board.js:67-77 | The board after the five toggles has the same number of rows and the same row length. |
| `Grid.FlipAroundAt` | src/Board.js:58-74 | A cell is inverted exactly when it is one of (y,x), (y,x+1), (y,x-1), (y+1,x), (y-1,x). Every other cell keeps its value. Positions off the board are ignored. |
| `Grid.FlipAroundTwice` | src/Board.js:70-74 | Flipping twice at the same coordinate restores the original board. |
| `Grid.FlipCorner` | src/Board.js:61-63 | On any board, a click at (0,0) changes only (0,0), (0,1) and (1,0). |
| `Grid.FlipSingleCell` | src/Board.js:61-74 | On a 1x1 board a click inverts the single cell. Clicking a lit 1x1 board wins the game. |
| `Grid.RowUnlit` | src/Board.js:50 | `r.every(cell => !cell)` holds exactly when no cell of the row is lit. |
| `Grid.HasWon` | src/Board.js:49-52 | `hasWon` holds exactly when no cell of any row is lit. It is true for the empty board. |
| `Grid.CentreScenario` | src/Board.js:70-74 | Clicking the centre of a 3x3 board where only the centre is lit gives the plus shape: centre off, corners off, not won. A second click restores the board. |
| `Engine.CreateBoard` | src/Board.js:34-47 | Returns a fresh board of exactly `nrows` rows of `ncols` cells. Cell (j, i) holds the draw for (j, i), whatever the draws are. |
| `Engine.BoardHasWon` | src/Board.js:49-52 | The win check on the current board is true exactly when every cell is off. |
| `Engine.CopyBoard` | src/Board.js:67 | The copy is a fresh board with the same shape and the same cells as the old one. |
| `Engine.FlipCellInPlace` | src/Board.js:58-65 | Toggling in place leaves the copy equal to `Grid.FlipCell` of its previous contents. |
| `Engine.FlipCellsAround` | src/Board.js:54-80 | The result is a fresh board of the same shape, equal to `Click` of the old cells. The old board is unchanged. A key that does not parse yields a plain copy. |
| `Engine.Click` | src/Board.js:54-80 | Handling a click keeps the board's shape. A key that does not parse leaves the board unchanged, because every bounds check fails on NaN. |
| `Engine.ClickCell` | src/Board.js:54-80 | A click on the key `${y}-${x}` (line 104) inverts exactly the on-board cells of the cross at (y, x). A second click restores the board. |

## Left out

- React rendering: the "You Won!" message, the table, the rows and the `Cell` elements. This is presentation.
- The `Cell` component and `Board.css`. Neither file is part of this model.
- The `useState`/`setBoard` state container. A click is modelled as old board in, new board out. The caller holds the current board.
- `Math.random()` and `chanceLightStartsOn`. These are randomness and floating point. `CreateBoard` takes an arbitrary function `coin(row, col)` in their place, so any sequence of draws is covered.
- The session states (playing, won). The code never stores them; it computes them with the win check on each render.
- Coord.DecimalString: prints every natural as plain digits. JavaScript prints values of 10^21 and above in exponent form (`1e+21`). The render loop never produces such values.
- Coord.ToNumber: does not model the other inputs JavaScript's `Number` accepts: surrounding whitespace, a sign, fractions, exponents, hexadecimal. It also does not model precision loss above 2^53. Keys built by the render loop never contain these forms. On a board with fewer than 2^53 columns, a value that large fails the bounds check either way.
- Engine.FlipCellsAround: requires the board to have the shape of the `nrows`/`ncols` props. Boards of any other shape are not modelled. With fewer rows than `nrows`, the code would index a missing row. With rows shorter than `ncols`, line 62 would write past a row's end and lengthen it. A larger board would be only partly reachable by the guard. Such boards arise only if the props change after the first render, because `useState` keeps the first board (line 31). The component never builds one itself.
