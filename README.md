# Match-3 grid prototype: a verified model

This project models the grid state of a browser match-3 prototype (`script.js`):

- **Tiles and the grid.** A `Tile` has a type name, a colour class (dark or light), a lock flag and a selection flag. Class `Grid` holds a `gridHeight × gridWidth` field of tiles. Its constructor fills the field. Each tile gets a type from the configured list and the colour class dark where `row + col` is even, light elsewhere.
- **Mutations.** `attemptSwap` refuses any pair whose Manhattan distance is not exactly 1. Otherwise it calls `swapTiles`, which exchanges only the `type` fields of the two tiles. `setSelected` writes one tile's selection flag.
- **The click machine.** The closure variable `selectedTile` is null or the cell clicked first. A first click records the cell and selects its tile. A second click deselects the recorded tile, clears `selectedTile` and attempts the swap, legal or not.
- **Pointer arithmetic.** A pointer position maps to cell `floor(coord / (tileSize + padding))`. The click is forwarded only when that cell is on the field. An unselected tile is drawn at `index * (tileSize + padding)`.

Modules, one file each:

- `Wrappers` (`wrappers.dfy`): `Option`.
- `Tiles` (`tiles.dfy`): the tile as a value.
- `Board` (`board.dfy`): the field as a sequence of rows. It holds the colouring and adjacency rules and each mutation as a function from the old field to the new one, with their lemmas.
- `GridModel` (`grid.dfy`): class `Grid`. It keeps the tiles in a two-dimensional array. A ghost field `Cells` holds the same field as rows. Every method states its new `Cells` through the `Board` functions and keeps `Valid()`. `Valid()` says the array and `Cells` agree, the sizes are right, every type is configured, every colour class matches its position and no tile is locked.
- `Pointer` (`pointer.dfy`): the canvas geometry, with tile size 90 and padding 5.
- `Game` (`game.dfy`): the page-level state once assets are loaded. That is the 4 × 5 grid with three tile types, plus `selectedTile`, `handleTileClick` and the `mousedown` bounds test.

Tile objects are never shared between cells in the source. So a tile is a value, and writing one of its fields means storing an updated value back into its cell.

The code commits every adjacent swap, with no further admission test. A swap exchanges only the `type` field: colour, lock and selection stay with the position.

## Model

| member | source | states |
|---|---|---|
| `Tiles.NewTile` | script.js:2-7 | A new tile holds the given type and colour, and starts unlocked and unselected. |
| `Board.ColorAt` | script.js:30-34 | A cell is dark exactly when `row + col` is even, and light otherwise. Its partner is `AdjacentColorsDiffer`. |
| `Board.IsAdjacent` | script.js:70 | The distance test holds exactly when the second cell is one of the four orthogonal neighbours of the first. So a cell is never adjacent to itself, and diagonal cells are never adjacent. |
| `Board.AdjacentColorsDiffer` | script.js:30-34 | The colouring is a checkerboard: two adjacent cells never share a colour class. |
| `Board.FreshBoardIsWellFormed` | script.js:24-37 | A freshly built field is well formed (configured types, positional colours, unlocked) and has no tile selected. |
| `Board.SelectedCellsOfSelection` | script.js:177-192 | Under the selection invariant, the set of selected tiles is exactly the held cell, or empty when nothing is held. So at most one tile is selected. |
| `Board.SwapTypes` | script.js:78-84 | The field after `swapTiles`. Its own contract says only that the shape is kept. What it does is stated by `SwapTypesEffect`, `SwapTypesInvolutive` and `SwapTypesSymmetric`. |
| `Board.SetSelectedAt` | script.js:86-88 | The field after `setSelected`. Its own contract says only that the shape is kept. What it does is stated by `SetSelectedEffect`. |
| `Board.AttemptSwapOn` | script.js:68-76 | The field after `attemptSwap`. Its own contract says only that the shape is kept. What it does is stated by `AttemptSwapOnAdjacent` (an adjacent pair is exactly `SwapTypes`), `AttemptSwapOnNotAdjacent` (any other pair leaves the field as it was) and `AttemptSwapChangesIff`. |
| `Board.AttemptSwapOnAdjacent` | script.js:70-75 | An adjacent attempt is exactly the type swap of the two cells. There is no other admission test. |
| `Board.AttemptSwapOnNotAdjacent` | script.js:70-73 | A pair at any distance other than 1 leaves the field exactly as it was. |
| `Board.SwapTypesEffect` | script.js:78-84 | After a swap the two cells hold each other's old types. Colour, lock and selection stay with each position. Every other cell is unchanged. |
| `Board.SwapTypesInvolutive` | script.js:78-84 | Swapping the same pair twice restores the original field. |
| `Board.SwapTypesSymmetric` | script.js:78-84 | Swapping (p, q) and swapping (q, p) give the same field. |
| `Board.AttemptSwapChangesIff` | script.js:68-76 | An attempted swap changes the field if and only if the cells are adjacent and hold different types. A non-adjacent pair, including a cell paired with itself, leaves the field unchanged. |
| `Board.SetSelectedEffect` | script.js:86-88 | Setting a flag sets that tile's flag to the given value and leaves every other field of it, and every other tile, unchanged. |
| `Board.SwapTypesPreservesWellFormed` | script.js:78-84 | A swap keeps every type configured, every colour positional and every tile unlocked. |
| `Board.SetSelectedPreservesWellFormed` | script.js:86-88 | Setting a flag keeps the field well formed. |
| `Board.SwapTypesKeepsSelection` | script.js:78-84 | A swap does not move the selection: the selection invariant holds afterwards with the same held cell. |
| `GridModel.Grid.constructor` | script.js:15-22 | The new grid has the given size, type list and colour count. Its array is fresh, it is valid, and every tile is freshly built. |
| `GridModel.Grid.InitializeGrid` | script.js:24-38 | Builds exactly `gridHeight` rows of `gridWidth` tiles. Every tile has a configured type and is dark exactly where `row + col` is even, light elsewhere. Every tile starts unlocked and unselected. |
| `GridModel.Grid.AttemptSwap` | script.js:68-76 | The new field is the old one with the types swapped when the pair is adjacent. When the pair is not adjacent, the field and the array are unchanged. |
| `GridModel.Grid.SwapTiles` | script.js:78-84 | The new field is the old one with only the two types exchanged, and the grid invariant is kept. |
| `GridModel.Grid.SetSelected` | script.js:86-88 | The new field is the old one with only the addressed flag written, and the grid invariant is kept. |
| `Pointer.CellOf` | script.js:169-170 | The computed index is the floor of coord / 95: the one integer whose cell span `[index * 95, (index + 1) * 95)` contains the coordinate. |
| `Pointer.DrawOrigin` | script.js:51-52 | The draw origin `index * 95` of a cell maps back to that cell's index. |
| `Pointer.DrawOriginMapsBack` | script.js:51-52 | Every point of the square drawn for a cell, padding included, maps back to that cell's index. This includes the draw origin `index * 95` itself. |
| `Pointer.ClickTarget` | script.js:169-174 | A click is forwarded exactly when the pointer is inside the field's rectangle `[0, width * 95) × [0, height * 95)`. The forwarded cell is on the field and its square contains the pointer. |
| `Game.ClickStep` | script.js:177-192 | The field and `selectedTile` after one `handleTileClick`. Its own contract says only that the shape is kept. What it does is stated by `FirstClickOnlySelects`, `SecondClickSwapsAdjacent` and `SecondClickNonAdjacentOnlyDeselects`, which cover every case. `ClickStepKeepsSelection` states the invariant it keeps. |
| `Game.FirstClickOnlySelects` | script.js:178-183 | A first click selects the clicked tile and holds its cell. Every type stays as it was, and every other flag too. |
| `Game.SecondClickNonAdjacentOnlyDeselects` | script.js:184-191 | A second click on a non-adjacent cell, including the held cell itself, only deselects the held tile and forgets it. No type changes, and no tile is selected afterwards. |
| `Game.ClickStepKeepsSelection` | script.js:177-192 | Each click keeps the selection invariant and a well-formed field. A first click holds the clicked cell. After a second click nothing is held and no tile is selected. |
| `Game.DoubleClickSameCellRestores` | script.js:177-192 | Clicking the same cell twice gives back the original field and no held cell. The distance-0 swap is refused. |
| `Game.SecondClickSwapsAdjacent` | script.js:184-190 | A second click on a cell adjacent to the held one gives the original field with the two types exchanged and the held tile deselected. |
| `Game.Game.constructor` | script.js:151-155 | Builds the 4 × 5 grid of the three configured types with nothing held. The game invariant holds and every tile is freshly built. |
| `Game.Game.HandleTileClick` | script.js:177-192 | The new field and `selectedTile` are one `ClickStep` from the old ones, and the selection invariant is kept. |
| `Game.Game.MouseDown` | script.js:164-175 | When the pointer is on the field, the handler performs one `ClickStep` on the cell under the pointer. Otherwise nothing changes. |

## Left out

- Drawing (`Grid.draw`, the page's `draw`, `clearRect`, `drawImage`): rendering I/O. Only the draw origin arithmetic of an unselected tile is kept, in `Pointer.DrawOrigin`.
- The enlarged drawing of a selected tile: it uses the floating-point factor `selectedScale = 1.1`.
- The asset key built with `toLowerCase`: it only looks up an image to draw.
- Asset loading and the image `onload` counting: asynchronous browser I/O. `Game.Game.constructor` is the callback that runs once every image has loaded. A click before that point, when the source's `gridObj` is still undefined, is not modelled.
- DOM wiring (`window.onload`, `getElementById`, `addEventListener`, `getBoundingClientRect`): `Game.Game.MouseDown` takes the pointer position already made relative to the canvas.
- `Math.random`: the type of each new tile is an arbitrary member of the configured list, chosen nondeterministically.
- `console.log` and `Tile.destroy`, which only logs.
- GridModel.Grid.constructor: with no tile types but a non-empty field, the source stores `undefined` as every type. Drawing then throws. The model requires a type list whenever the field has a cell.
- GridModel.Grid.constructor: the dimensions are `nat`. The source's loops would also accept negative sizes and build no tiles.
- Match detection, cascade removal, gravity, refill and animation phases: none of them exist in the source.
- Pointer.CellOf: the source divides in IEEE double precision, and the model divides exact reals. For the divisor 95 the floor of the rounded quotient equals the exact floor for every double coordinate, because the rounding error stays below the distance to the next integer. So no click maps to a different cell.
