/**
 * The page-level state of script.js once its assets are loaded: the configuration
 * constants, the grid object, and the click-selection machine driven by the closure
 * variable `selectedTile` (null, or the cell clicked first).
 */
module Game {
  import opened Wrappers
  import opened Tiles
  import opened Board
  import opened GridModel
  import opened Pointer

  const GridWidth: nat := 4
  const GridHeight: nat := 5
  const TileTypes: seq<string> := ["Strawberry", "Avocado", "Lemon"]
  const TileColors: int := 2

  /**
   * One call of `handleTileClick(row, col)` on field `b` with `selectedTile` equal to
   * `selectedTile`: the resulting field and the new value of `selectedTile`. A first click
   * remembers and selects the cell; a second click deselects the remembered cell, forgets
   * it and attempts the swap with the clicked cell, whether or not that swap is legal.
   */
  function ClickStep(b: Board, selectedTile: Option<Coord>, row: int, col: int): (next: (Board, Option<Coord>))
    requires InBounds(b, row, col)
    requires selectedTile.Some? ==> InBounds(b, selectedTile.value.row, selectedTile.value.col)
    ensures SameShape(b, next.0)
  {
    match selectedTile
    case None => (SetSelectedAt(b, row, col, true), Some(Coord(row, col)))
    case Some(first) =>
      var deselected := SetSelectedAt(b, first.row, first.col, false);
      (AttemptSwapOn(deselected, first.row, first.col, row, col), None)
  }

  /**
   * The click machine keeps the selection invariant: afterwards the selected tiles are
   * exactly the cell held in `selectedTile`. A first click holds the clicked cell; after a
   * second click nothing is held and no tile is selected. Well-formedness is kept too.
   */
  lemma ClickStepKeepsSelection(b: Board, tileTypes: seq<string>, selectedTile: Option<Coord>, row: int, col: int)
    requires WellFormed(b, tileTypes)
    requires SelectionIs(b, selectedTile)
    requires InBounds(b, row, col)
    ensures var next := ClickStep(b, selectedTile, row, col);
      SelectionIs(next.0, next.1) && WellFormed(next.0, tileTypes) &&
      (selectedTile.None? ==> next.1 == Some(Coord(row, col))) &&
      (selectedTile.Some? ==> next.1 == None && SelectedCells(next.0) == {})
  {
  }

  /**
   * Clicking the same cell twice selects it and then deselects it; the swap of the cell
   * with itself is refused (distance 0), so the field and `selectedTile` are as before.
   */
  lemma DoubleClickSameCellRestores(b: Board, row: int, col: int)
    requires SelectionIs(b, None)
    requires InBounds(b, row, col)
    ensures var first := ClickStep(b, None, row, col);
      ClickStep(first.0, first.1, row, col) == (b, None)
  {
    var selected := SetSelectedAt(b, row, col, true);
    var deselected := SetSelectedAt(selected, row, col, false);
    forall r | 0 <= r < |b|
      ensures deselected[r] == b[r]
    {
      forall c | 0 <= c < |b[r]|
        ensures deselected[r][c] == b[r][c]
      {
      }
    }
    assert deselected == b;
    assert !IsAdjacent(row, col, row, col);
  }

  /**
   * A second click on a cell adjacent to the held one commits the swap: relative to the
   * field before the click, the two types are exchanged and nothing else differs except
   * that the held tile is no longer selected.
   */
  lemma SecondClickSwapsAdjacent(b: Board, first: Coord, row: int, col: int)
    requires SelectionIs(b, Some(first))
    requires InBounds(b, row, col)
    requires IsAdjacent(first.row, first.col, row, col)
    ensures var next := ClickStep(b, Some(first), row, col);
      next.0 == SetSelectedAt(SwapTypes(b, first.row, first.col, row, col), first.row, first.col, false)
  {
    var one := ClickStep(b, Some(first), row, col).0;
    var other := SetSelectedAt(SwapTypes(b, first.row, first.col, row, col), first.row, first.col, false);
    forall r | 0 <= r < |b|
      ensures one[r] == other[r]
    {
      forall c | 0 <= c < |b[r]|
        ensures one[r][c] == other[r][c]
      {
      }
    }
  }

  /**
   * A first click only selects the clicked tile and holds its cell: every tile type, and
   * every other tile, stays as it was.
   */
  lemma FirstClickOnlySelects(b: Board, row: int, col: int)
    requires InBounds(b, row, col)
    ensures ClickStep(b, None, row, col) == (SetSelectedAt(b, row, col, true), Some(Coord(row, col)))
    ensures var next := ClickStep(b, None, row, col).0;
      forall r, c :: InBounds(b, r, c) ==>
        next[r][c].tileType == b[r][c].tileType &&
        next[r][c].isSelected == (b[r][c].isSelected || Coord(r, c) == Coord(row, col))
  {
  }

  /**
   * A second click on a cell that is not adjacent to the held one (the held cell itself
   * included) only deselects the held tile and forgets it: no tile type changes.
   */
  lemma SecondClickNonAdjacentOnlyDeselects(b: Board, first: Coord, row: int, col: int)
    requires SelectionIs(b, Some(first))
    requires InBounds(b, row, col)
    requires !IsAdjacent(first.row, first.col, row, col)
    ensures ClickStep(b, Some(first), row, col) == (SetSelectedAt(b, first.row, first.col, false), None)
    ensures var next := ClickStep(b, Some(first), row, col).0;
      forall r, c :: InBounds(b, r, c) ==>
        next[r][c].tileType == b[r][c].tileType && !next[r][c].isSelected
  {
  }

  /** The closure state of the page after the assets have loaded. */
  class Game {
    const gridObj: Grid
    var selectedTile: Option<Coord>

    ghost predicate Valid()
      reads this, gridObj, gridObj.grid
    {
      gridObj.Valid() &&
      gridObj.gridWidth == GridWidth && gridObj.gridHeight == GridHeight &&
      gridObj.tileTypes == TileTypes &&
      SelectionIs(gridObj.Cells, selectedTile)
    }

    /** The asset-loaded callback: builds the 4 by 5 grid of three tile types; nothing is held. */
    constructor ()
      ensures Valid() && fresh(gridObj) && fresh(gridObj.grid)
      ensures selectedTile == None
      ensures AllFresh(gridObj.Cells, TileTypes)
    {
      gridObj := new Grid(GridWidth, GridHeight, TileTypes, TileColors);
      selectedTile := None;
      new;
      FreshBoardIsWellFormed(gridObj.Cells, TileTypes);
    }

    /** `handleTileClick(row, col)`, called only with a cell on the field. */
    method HandleTileClick(row: int, col: int)
      requires Valid()
      requires 0 <= row < GridHeight && 0 <= col < GridWidth
      modifies this`selectedTile, gridObj`Cells, gridObj.grid
      ensures Valid()
      ensures (gridObj.Cells, selectedTile) == ClickStep(old(gridObj.Cells), old(selectedTile), row, col)
    {
      ghost var before, held := gridObj.Cells, selectedTile;
      if selectedTile == None {
        selectedTile := Some(Coord(row, col));
        gridObj.SetSelected(row, col, true);
      } else {
        var firstTile := selectedTile.value;
        gridObj.SetSelected(firstTile.row, firstTile.col, false);
        selectedTile := None;
        gridObj.AttemptSwap(firstTile.row, firstTile.col, row, col);
      }
      ClickStepKeepsSelection(before, TileTypes, held, row, col);
    }

    /**
     * The `mousedown` handler, given the pointer position relative to the canvas: the
     * click reaches `handleTileClick` only when the cell under the pointer is on the field.
     */
    method MouseDown(x: real, y: real)
      requires Valid()
      modifies this`selectedTile, gridObj`Cells, gridObj.grid
      ensures Valid()
      ensures var target := ClickTarget(x, y, GridWidth, GridHeight);
        if target.Some? then
          (gridObj.Cells, selectedTile) == ClickStep(old(gridObj.Cells), old(selectedTile), target.value.row, target.value.col)
        else
          gridObj.Cells == old(gridObj.Cells) && selectedTile == old(selectedTile) && unchanged(gridObj.grid)
    {
      var col := CellOf(x);
      var row := CellOf(y);
      if col >= 0 && col < GridWidth && row >= 0 && row < GridHeight {
        HandleTileClick(row, col);
      }
    }
  }
}
