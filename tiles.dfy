/**
 * One tile of the playing field (class `Tile` in script.js).
 *
 * The source keeps tiles as objects whose fields are overwritten in place; no tile
 * object is ever shared between two cells, so a tile is modelled as a value and an
 * in-place field write as storing an updated value back into its cell.
 */
module Tiles {

  /** The two checkerboard colour classes, the strings "dark" and "light" in the source. */
  datatype Color = Dark | Light

  /**
   * `tileType` is the source's field `type` (a reserved word in Dafny): one of the
   * configured tile-type names. `isLocked` is never changed by the source.
   */
  datatype Tile = Tile(tileType: string, color: Color, isLocked: bool, isSelected: bool)

  /** `new Tile(type, color)`: a tile starts neither locked nor selected. */
  function NewTile(tileType: string, color: Color): (t: Tile)
    ensures t.tileType == tileType && t.color == color
    ensures !t.isLocked && !t.isSelected
  {
    Tile(tileType, color, false, false)
  }

  /** What a tile looks like right after it was built for a cell whose colour class is `color`. */
  predicate IsFreshTile(t: Tile, tileTypes: seq<string>, color: Color)
  {
    t.tileType in tileTypes && t.color == color && !t.isLocked && !t.isSelected
  }
}
