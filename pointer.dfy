/**
 * The integer geometry shared by drawing and by the `mousedown` handler of script.js:
 * every cell occupies a square of `TileSize + Padding` canvas pixels, the tile drawn at
 * its top-left corner and the padding to its right and below.
 *
 * Pointer positions relative to the canvas are fractional in a browser, so they are reals.
 */
module Pointer {
  import opened Wrappers
  import opened Board

  const TileSize: int := 90
  const Padding: int := 5

  /** The pitch of the field: the size of one cell with its padding. */
  const CellPitch: int := TileSize + Padding

  /**
   * `Math.floor(coord / (tileSize + padding))`: the index of the cell whose span holds
   * `coord`, that is, the one integer `cell` with `cell * pitch <= coord < (cell + 1) * pitch`.
   */
  function CellOf(coord: real): (cell: int)
    ensures cell as real * CellPitch as real <= coord < (cell + 1) as real * CellPitch as real
  {
    (coord / CellPitch as real).Floor
  }

  /** `col * (tileSize + padding)` (and the same for rows): where an unselected tile is drawn. */
  function DrawOrigin(index: int): (origin: int)
    ensures CellOf(origin as real) == index
  {
    index * CellPitch
  }

  /**
   * Every point of the square drawn for cell `index`, its padding included, maps back to
   * that cell; in particular the draw origin itself does.
   */
  lemma DrawOriginMapsBack(index: int, offset: real)
    requires 0.0 <= offset < CellPitch as real
    ensures CellOf(DrawOrigin(index) as real + offset) == index
  {
  }

  /**
   * The bounds test of the `mousedown` handler: the click is forwarded to the cell under
   * the pointer exactly when that cell lies on a `gridWidth` by `gridHeight` field, which is
   * exactly when the pointer lies inside the field's rectangle on the canvas.
   */
  function ClickTarget(x: real, y: real, gridWidth: int, gridHeight: int): (target: Option<Coord>)
    ensures target.Some? <==>
      0.0 <= x < (gridWidth * CellPitch) as real && 0.0 <= y < (gridHeight * CellPitch) as real
    ensures target.Some? ==>
      0 <= target.value.col < gridWidth && 0 <= target.value.row < gridHeight &&
      DrawOrigin(target.value.col) as real <= x < DrawOrigin(target.value.col + 1) as real &&
      DrawOrigin(target.value.row) as real <= y < DrawOrigin(target.value.row + 1) as real
  {
    var col := CellOf(x);
    var row := CellOf(y);
    if col >= 0 && col < gridWidth && row >= 0 && row < gridHeight then Some(Coord(row, col)) else None
  }
}
