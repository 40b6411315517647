# Minesweeper board engine

A Dafny model of the board engine of the Minesweeper React Native app.
The engine lives in `GameBoard.js`. It covers:

- **Grid generation (`createGrid`).** The grid has `height` rows of `width` cells `{value, revealed, flagged}`. Mines are placed by rejection sampling. A mine goes down only on a cell whose value is 0. Each placement bumps the count of every in-bounds neighbour that is not a mine.
- **`countFlags`.** Counts the flagged cells.
- **The tap handler (`handleCellClick`).** It has a no-op guard. A mine is revealed alone and the game is lost. A safe cell starts the flood-fill and is followed by the win test.
- **The flood-fill (`revealCell`).**
- **The win test (`checkWin`).**
- **The long-press handler (`handleCellLongPress`).** It flips the flag.

Modules, one per concern:

- `Grids` (grid.dfy) defines cells, positions and grids. It also holds the adjacency-count law (`CountsCorrect`), the fact that no two mines are neighbours (`MinesApart`), the 8-neighbourhood and the flag toggle.
- `Counting` (counting.dfy) counts the cells of a grid that have a property: flagged, revealed, mine or safe. It proves the lemmas the counting loops and the win test rely on.
- `Placement` (placement.dfy) covers `createGrid`: `EmptyGrid` (the nested `push` loops), `PlaceMine` (the neighbour-offset loops) and `CreateGrid` (the placement `while` loop).
- `Cascade` (cascade.dfy) is the specification of one `revealCell` call. `Floods(g0, g1, ..., start, order)` relates the grid before and after the call. `order` is the sequence of cells the call opened.
- `GameBoard` (game_board.dfy) holds `CountFlags` and `CheckWin` as free methods, and the class `Board`. The class has the fields `grid` and `state`, and the methods `RevealCell`, `HandleCellClick` and `HandleCellLongPress`, which change those fields in place.
- `SourceDefects` (findings.dfy) models three lines as written, next to a concrete input on which each one misbehaves.

Randomness is a parameter. `Math.floor(Math.random() * width)` and the row pick become a sequence `draws` of candidate positions. Each draw is on the board. The placement loop consumes them in order.

The model follows the code in three places where a cleaner engine might differ:

- A mine count of zero or less gives a grid without mines, and a count larger than the board can hold is not rejected. Placement then goes on for as long as the draws last (see `## Left out` for the sizes the model does not cover).
- A long press flips the flag of a revealed cell too.
- A mine is placed only on a cell of value 0, not on any mine-free cell. So no two mines are ever neighbours (`MinesApart`).

Broken lines are modelled by their evident intent. The comments at each place say so, and `## Findings` lists them:

- `revealCell` bounds-checks `0 <= col < width`, `0 <= row < height`.
- The recursive calls pass `(col, row)` in the declared order.
- `checkWin` reads the grid it is given. It scans rows `y < height` and columns `x < width`, and compares against `width * height` minus the mines. On the non-win path it returns `false`.

## Model

| member | source | states |
|---|---|---|
| `Placement.EmptyGrid` | GameBoard.js:6-13 | the nested loops build `Blank`: `height` rows of `width` cells, each `{value: 0, revealed: false, flagged: false}` |
| `Placement.PlaceMine` | GameBoard.js:21-38 | the offset loops build `Placed`: the input with a mine at (x, y), every in-bounds neighbour that is not a mine incremented by one, the other cells unchanged (`PlacedAt`) |
| `Placement.MinesAroundAfterPlacing` | GameBoard.js:24-38 | after a placement, every cell's count of neighbouring mines rises by exactly one if it neighbours (x, y) and is otherwise unchanged |
| `Placement.PlacingKeepsLaws` | GameBoard.js:20-38 | a mine placed on a cell of value 0 keeps the adjacency-count law and keeps every mine free of neighbouring mines. The mine count rises by exactly one |
| `Placement.PlacingKeepsMarks` | GameBoard.js:20-22 | a placement reveals and flags nothing. Every mine lies on a draw already consumed |
| `Placement.CreateGrid` | GameBoard.js:5-43 | the grid has `height` rows of `width` cells, all covered. Each non-mine cell's value equals its neighbouring mines. No two mines are neighbours. Placement stops after `bombCount` mines. It falls short only when the draws run out. Every consumed draw was taken while mines were still missing, so `used` is exactly the number of draws the source makes (`AttemptsDetermined`). Every mine lies on a consumed draw, and every consumed draw ends on a cell of non-zero value (a mine or a mine's neighbour), so no draw on a value-0 cell was passed over. The grid is `Attempted(draws, used)`: the mines are exactly the ones the consumed draws place, in draw order |
| `Placement.DrawWhileShort` | GameBoard.js:16 | a draw taken while fewer than `bombCount` mines are down extends the fact that every draw so far was taken while mines were missing |
| `Placement.AttemptsDetermined` | GameBoard.js:16-17 | the number of draws is fixed by the draws themselves: two counts that each draw only while mines are missing, and stop short only at the end of the draws, are equal |
| `Placement.Blank` | GameBoard.js:6-13 | the starting grid has `height` rows of `width` cells, each covered with value 0 |
| `Placement.Placed` | GameBoard.js:21-38 | a mine dropped on (x, y) as one grid: it meets `PlacedAt` |
| `Placement.TryPlace` | GameBoard.js:17-39 | one pass of the placement loop: it places a mine exactly when the drawn cell has value 0, the mine count rises by one exactly then, the grid laws and the consumed-draw facts carry over, and the result is `Attempted` one draw further |
| `Placement.PlacingKeepsTried` | GameBoard.js:20-22 | after a mine goes down on the drawn cell, that cell and every earlier draw's cell still have a non-zero value |
| `Placement.SkippingKeepsTried` | GameBoard.js:20 | a draw whose cell already has a non-zero value is passed over, and the fact that every consumed draw hit a non-zero cell is kept |
| `Placement.AttemptPlaces` | GameBoard.js:16-39 | the grid the loop builds by placing on a value-0 draw is the reference grid `Attempted` after that draw |
| `Placement.AttemptSkips` | GameBoard.js:16-20 | a draw on a non-zero cell leaves the reference grid `Attempted` as it was |
| `Placement.PlacedAtUnique` | GameBoard.js:21-38 | a placement at (x, y) determines the resulting grid: two grids placed from the same grid at the same cell are equal |
| `Placement.OneCellOneMine` | GameBoard.js:5-43 | on a 1 x 1 board with one mine asked for and the draw (0, 0), the grid is the single covered mine |
| `GameBoard.CountFlags` | GameBoard.js:45-55 | the result is the number of cells with `flagged` set |
| `GameBoard.FlagCountBounded` | GameBoard.js:45-55 | the flag count lies in `[0, width*height]` |
| `GameBoard.ToggleFlagCount` | GameBoard.js:88-96 | a long press changes the flag count by exactly +1 or -1 |
| `GameBoard.CheckWin` | GameBoard.js:129-149 | the result is true exactly when the revealed count equals `width*height` minus the mine count |
| `GameBoard.WinMeansAllSafeRevealed` | GameBoard.js:129-145 | while no mine is revealed, that count test holds exactly when every mine-free cell is revealed |
| `GameBoard.Board.constructor` | GameBoard.js:58-60 | a new board is in state `ongoing`, every cell covered. It satisfies the board invariant, and holds no more mines than asked for |
| `GameBoard.Board.RevealCell` | GameBoard.js:98-126 | opens only eligible cells, spreads only from zero cells, leaves every opened zero cell with its eligible neighbours revealed, and terminates (details below the table) |
| `GameBoard.Board.RevealAround` | GameBoard.js:115-125 | the eight recursive calls keep the cascade well formed. Afterwards every neighbour is revealed, flagged, a mine or off the board |
| `GameBoard.Board.HandleCellClick` | GameBoard.js:62-86 | the guard is a no-op, a mine click just reveals that cell and loses, a safe click floods and then wins exactly on the count test (details below the table) |
| `GameBoard.Board.HandleCellLongPress` | GameBoard.js:88-96 | outside an ongoing game grid and state are unchanged. Otherwise exactly the target's flag flips, even on a revealed cell. The state and all other cells are unchanged |
| `Grids.ToggleFlag` | GameBoard.js:94 | the flag of the target flips, its `revealed` mark stays, every value stays, and the grid keeps its shape |
| `Grids.ToggleFlagExact` | GameBoard.js:94 | the toggle flips the target's flag and changes no other mark and no value |
| `Grids.ToggleFlagTwice` | GameBoard.js:88-96 | two long presses on one cell give back the original grid |
| `Grids.SameValuesKeepLaws` | GameBoard.js:94 | changing only marks keeps every neighbour-mine count, the adjacency law and the spacing of mines |
| `Grids.NeighboursExact` | GameBoard.js:116-125 | the eight cascade targets are exactly the 8-neighbours of the cell |
| `Grids.MineCountsForNeighbour` | GameBoard.js:24-38 | a mine on a neighbour is counted in that cell's neighbour-mine total |
| `Cascade.SpreadingExtends` | GameBoard.js:116-125 | adding the region flooded from a neighbour keeps the cascade well formed and settles that neighbour |
| `Cascade.AroundStep` | GameBoard.js:115-125 | one of the eight recursive calls keeps the cascade well formed, settles its neighbour and keeps the earlier ones settled, and the unrevealed set stays below the starting one |
| `Cascade.FloodsHidesMines` | GameBoard.js:105-108 | a cascade never reveals a mine |
| `Cascade.OpeningShrinks` | GameBoard.js:110-113 | opening a cell removes it from the unrevealed set, which is the termination measure of revealCell |
| `GameBoard.SingleCellGame` | GameBoard.js:62-83 | on a 1 x 1 board without mines the first tap reveals the cell and wins |
| `SourceDefects.WrittenRevealBounds` | GameBoard.js:99 | a cell passes the written guard only if it is on the board. The converse fails, see the next row |
| `SourceDefects.WrittenBoundsSkipLastRow` | GameBoard.js:99 | the written bounds check rejects every cell of the last row |
| `SourceDefects.WrittenRecursionTargets` | GameBoard.js:117-124 | the k-th written call reaches the k-th neighbour with its column and row swapped |
| `SourceDefects.WrittenTargetsLeaveNeighbourhood` | GameBoard.js:117-124 | the written argument order sends the first recursive call from (2, 0) to (-1, 1), which is not a neighbour |
| `SourceDefects.WrittenWinTest` | GameBoard.js:144 | the written test never passes while `gridSize` is undefined, since it then compares with NaN. With an integer side `n` it passes only when the revealed and mine counts add up to `n * n` |
| `SourceDefects.WrittenWinTestMissesWin` | GameBoard.js:144 | on a fully revealed 2 x 1 board without mines, the written test fails, both with `gridSize` undefined and with every integer side length |

**`GameBoard.Board.RevealCell`:**

- Only `revealed` marks change, and only from false to true.
- Nothing changes unless the start cell is on the board, covered, unflagged and mine-free. Otherwise the start cell is opened first.
- Every opened cell was eligible. It was never a mine, never flagged and never off the board.
- Every opened cell after the first touches an earlier opened cell of value 0. So the cascade only spreads from zero cells.
- Every opened zero cell ends with all its eligible neighbours revealed.
- The call terminates: the set of unrevealed cells shrinks.

**`GameBoard.Board.HandleCellClick`:**

- A flagged or revealed target, or a game that is not ongoing, leaves the grid and the state unchanged.
- A mine target is revealed alone and the state becomes `lost`.
- A safe target floods from the target, as `RevealCell`.
- After a safe target the state becomes `won` exactly when the revealed count equals `width*height` minus the mines. That is exactly when every safe cell is revealed. Otherwise the state stays `ongoing`.
- The board invariant is kept: no mine is revealed unless the game is lost.

## Findings

| source | as written | input that shows it | evidently intended | confidence | as-written member | corrected member |
|---|---|---|---|---|---|---|
| GameBoard.js:99 | `row >= this.height - 1 \|\| col >= this.width - 1`: read with `this.height` and `this.width` as the board's size, it rejects the last row and last column. As the arrow function evaluates it, `this` is not the component, so the read either throws or gives `undefined`, the comparisons with NaN are false, there is no upper bound, and an off-board neighbour throws at GameBoard.js:104 | with the board's size: any board, cell (0, height-1), and on a 1 x 1 board the only cell. As evaluated: a call with `col == width` and an on-board `row`, which the guard lets through and whose `cell.revealed` then throws | `0 <= col < width && 0 <= row < height` | high, not executed | `SourceDefects.WrittenBoundsSkipLastRow` | `GameBoard.Board.RevealCell` |
| GameBoard.js:117-124 | `revealCell(grid, row - 1, col - 1)` etc. against the signature `(grid, col, row)` swaps the axes | (col, row) = (2, 0): the first call lands on (-1, 1) | the eight neighbours `(col ± 1, row ± 1)` | high, not executed | `SourceDefects.WrittenTargetsLeaveNeighbourhood` | `Grids.NeighboursExact` |
| GameBoard.js:144 | the win test compares against `this.gridSize ** 2`, and `gridSize` is defined nowhere, so it is `undefined`, `undefined ** 2` is NaN and the test is false | any board. For example a 2 x 1 board with both cells revealed and no mine, where even an integer side length would not match | `width * height - bombCount` | high, not executed | `SourceDefects.WrittenWinTestMissesWin` | `GameBoard.CheckWin` |

`this` inside the component's arrow functions is not the component, so `this.width`, `this.height` and `this.grid` (GameBoard.js:99, 133-138) do not give the board's dimensions and grid. The model reads them as the board's `width`, `height` and the grid passed in. `checkWin` also indexes `grid[i][j]` with `i` over the width (GameBoard.js:133-135). That transposes the grid. The model scans rows over the height.

## Left out

- Rendering: `renderCell`, `renderRow`, the returned JSX, `StyleSheet` (GameBoard.js:152-225) and all of `Cell.js`. These are UI.
- Navigation: `App.js` and the `navigation.navigate` calls (GameBoard.js:74, 82). These are foreign library calls.
- React state: `useState`, the asynchronous `setGrid`/`setGameState` calls and the commented-out `setGrid` (GameBoard.js:85). Grid and state are fields changed in place, which matches the shallow `[...grid]` copies that share row objects.
- `alert` and the unreachable lines after `return true` (GameBoard.js:146-147).
- `Math.random` itself (GameBoard.js:17-18). Its results are the `draws` parameter.
- `resetGame` (GameBoard.js:178-181). It only calls `createGrid` again and sets the state back to `ongoing`, which is what `Board.constructor` does.
- Placement.CreateGrid: once no cell of value 0 remains and fewer than `bombCount` mines are down, the source loops forever. The model stops when the draws run out and reports this through `used`.
- Placement.CreateGrid: with `width` or `height` equal to 0 and `bombCount > 0`, the source throws a TypeError at GameBoard.js:20, because `grid[y]` or `grid[y][x]` is undefined. The model returns the empty grid instead: no draw can be on such a board, so `draws` is empty.
- Placement.CreateGrid: `width` and `height` are `nat`. So the negative sizes the source accepts when `bombCount <= 0` are not modelled. The source builds an empty grid for them (GameBoard.js:7-9).
- GameBoard.Board.constructor: states only that at most `bombCount` mines are placed. Which draws were accepted, and whether placement finished, are stated by the `Tried` and `Attempted` ensures of `CreateGrid`, not by the constructor.
- The handlers require an in-bounds target, because the UI only passes rendered cells. An out-of-bounds `grid[y][x]` in the source throws.
- The ghost `order` returned by `RevealCell` is the reveal order. It records the cascade and has no counterpart in the source.
