/**
 * Class `Grid` of script.js: a `gridHeight` by `gridWidth` field of tiles that is filled
 * once and then updated in place by swapping tile types and toggling selection flags.
 *
 * The tiles live in a two-dimensional array; the ghost field `Cells` is the same field
 * as a sequence of rows, and every method states its effect on `Cells` through the
 * functions of module Board.
 */
module GridModel {
  import opened Tiles
  import opened Board

  class Grid {
    const gridWidth: nat
    const gridHeight: nat
    const tileTypes: seq<string>
    /** The number of colour classes the caller passes in; the grid itself never reads it. */
    const tileColor: int
    var grid: array2<Tile>
    ghost var Cells: Board

    /** The array and `Cells` agree, have the configured size, and hold a well-formed field. */
    ghost predicate Valid()
      reads this, grid
    {
      grid.Length0 == gridHeight && grid.Length1 == gridWidth &&
      Shaped(Cells, gridHeight, gridWidth) &&
      (forall r, c :: 0 <= r < gridHeight && 0 <= c < gridWidth ==> Cells[r][c] == grid[r, c]) &&
      WellFormed(Cells, tileTypes)
    }

    /**
     * `new Grid(gridWidth, gridHeight, tileTypes, tileColors)`. A tile type is drawn at
     * random only when the field has at least one cell, and only then must there be a
     * type to draw.
     */
    constructor (gridWidth: nat, gridHeight: nat, tileTypes: seq<string>, tileColors: int)
      requires gridWidth > 0 && gridHeight > 0 ==> |tileTypes| > 0
      ensures this.gridWidth == gridWidth && this.gridHeight == gridHeight
      ensures this.tileTypes == tileTypes && this.tileColor == tileColors
      ensures Valid() && fresh(grid)
      ensures AllFresh(Cells, tileTypes)
    {
      this.gridWidth := gridWidth;
      this.gridHeight := gridHeight;
      this.tileTypes := tileTypes;
      this.tileColor := tileColors;
      grid := new Tile[0, 0];
      Cells := [];
      new;
      InitializeGrid();
    }

    /**
     * `initializeGrid`: builds the field row by row. Each tile gets an arbitrary one of the
     * configured types (the source draws it with `Math.random`), the colour class dark on
     * cells where row + col is even and light elsewhere, and starts unlocked and unselected.
     */
    method InitializeGrid()
      requires gridWidth > 0 && gridHeight > 0 ==> |tileTypes| > 0
      modifies this
      ensures Valid() && fresh(grid)
      ensures Shaped(Cells, gridHeight, gridWidth)
      ensures AllFresh(Cells, tileTypes)
    {
      var g := new Tile[gridHeight, gridWidth];
      ghost var rows: Board := [];
      var row := 0;
      while row < gridHeight
        invariant 0 <= row <= gridHeight
        invariant Shaped(rows, row, gridWidth)
        invariant forall r, c :: 0 <= r < row && 0 <= c < gridWidth ==>
          rows[r][c] == g[r, c] && IsFreshTile(g[r, c], tileTypes, ColorAt(r, c))
      {
        ghost var cells: seq<Tile> := [];
        var col := 0;
        while col < gridWidth
          invariant 0 <= col <= gridWidth
          invariant |cells| == col
          invariant forall c :: 0 <= c < col ==>
            cells[c] == g[row, c] && IsFreshTile(g[row, c], tileTypes, ColorAt(row, c))
          invariant forall r, c :: 0 <= r < row && 0 <= c < gridWidth ==>
            rows[r][c] == g[r, c] && IsFreshTile(g[r, c], tileTypes, ColorAt(r, c))
        {
          var k :| 0 <= k < |tileTypes|;
          var tileType := tileTypes[k];
          var tileColor: Color;
          if (col + row) % 2 == 0 {
            tileColor := Dark;
          } else {
            tileColor := Light;
          }
          g[row, col] := NewTile(tileType, tileColor);
          cells := cells + [g[row, col]];
          col := col + 1;
        }
        rows := rows + [cells];
        row := row + 1;
      }
      grid := g;
      Cells := rows;
      FreshBoardIsWellFormed(Cells, tileTypes);
    }

    /**
     * `attemptSwap`: refuses a pair whose Manhattan distance is not exactly 1, leaving the
     * field unchanged (this includes a cell paired with itself); otherwise swaps the types.
     */
    method AttemptSwap(row1: int, col1: int, row2: int, col2: int)
      requires Valid()
      requires IsAdjacent(row1, col1, row2, col2) ==>
        0 <= row1 < gridHeight && 0 <= col1 < gridWidth && 0 <= row2 < gridHeight && 0 <= col2 < gridWidth
      modifies grid, this`Cells
      ensures Valid()
      ensures Cells == AttemptSwapOn(old(Cells), row1, col1, row2, col2)
      ensures !IsAdjacent(row1, col1, row2, col2) ==> Cells == old(Cells) && unchanged(grid)
    {
      if Abs(row1 - row2) + Abs(col1 - col2) != 1 {
        return;
      }
      SwapTiles(row1, col1, row2, col2);
    }

    /** `swapTiles`: the two cells exchange their `type` fields; nothing else changes. */
    method SwapTiles(row1: int, col1: int, row2: int, col2: int)
      requires Valid()
      requires 0 <= row1 < gridHeight && 0 <= col1 < gridWidth
      requires 0 <= row2 < gridHeight && 0 <= col2 < gridWidth
      modifies grid, this`Cells
      ensures Valid()
      ensures Cells == SwapTypes(old(Cells), row1, col1, row2, col2)
    {
      var type1 := grid[row1, col1].tileType;
      var type2 := grid[row2, col2].tileType;
      grid[row1, col1] := grid[row1, col1].(tileType := type2);
      grid[row2, col2] := grid[row2, col2].(tileType := type1);
      SwapTypesPreservesWellFormed(Cells, tileTypes, row1, col1, row2, col2);
      Cells := SwapTypes(Cells, row1, col1, row2, col2);
    }

    /** `setSelected`: writes the flag of one tile. */
    method SetSelected(row: int, col: int, isSelected: bool)
      requires Valid()
      requires 0 <= row < gridHeight && 0 <= col < gridWidth
      modifies grid, this`Cells
      ensures Valid()
      ensures Cells == SetSelectedAt(old(Cells), row, col, isSelected)
    {
      grid[row, col] := grid[row, col].(isSelected := isSelected);
      SetSelectedPreservesWellFormed(Cells, tileTypes, row, col, isSelected);
      Cells := SetSelectedAt(Cells, row, col, isSelected);
    }
  }
}
