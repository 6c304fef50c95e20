/**
 * The playing field as a value: `grid[row][col]` of script.js, row 0 at the top,
 * together with the pure rules the source applies to it (the checkerboard colouring,
 * the adjacency test of `attemptSwap`) and the effect of each mutation of class `Grid`
 * stated as a function from the old field to the new one.
 */
module Board {
  import opened Wrappers
  import opened Tiles

  /** A cell address, the `{ row, col }` object that `selectedTile` holds. */
  datatype Coord = Coord(row: int, col: int)

  /** The rows of the field; every row holds the tiles of that row from left to right. */
  type Board = seq<seq<Tile>>

  predicate InBounds(b: Board, row: int, col: int)
  {
    0 <= row < |b| && 0 <= col < |b[row]|
  }

  /** `b` has exactly `height` rows of `width` tiles each. */
  predicate Shaped(b: Board, height: int, width: int)
  {
    |b| == height && forall r :: 0 <= r < |b| ==> |b[r]| == width
  }

  /** `b'` has the same number of rows as `b`, and each row the same length. */
  predicate SameShape(b: Board, b': Board)
  {
    |b'| == |b| && forall r :: 0 <= r < |b| ==> |b'[r]| == |b[r]|
  }

  function Abs(x: int): nat
  {
    if x < 0 then -x else x
  }

  // ---------------------------------------------------------------------------
  // Colouring and adjacency
  // ---------------------------------------------------------------------------

  /** The colour class `initializeGrid` gives the cell at (row, col). */
  function ColorAt(row: int, col: int): (color: Color)
    ensures color == Dark <==> (row + col) % 2 == 0
  {
    if (col + row) % 2 == 0 then Dark else Light
  }

  /**
   * The test of `attemptSwap`: the Manhattan distance between the two cells is exactly 1.
   * Equivalently, the second cell is one of the four orthogonal neighbours of the first;
   * in particular a cell is never adjacent to itself and diagonal neighbours are excluded.
   */
  function IsAdjacent(row1: int, col1: int, row2: int, col2: int): (adjacent: bool)
    ensures adjacent <==>
      (row1 == row2 && (col2 == col1 + 1 || col2 == col1 - 1)) ||
      (col1 == col2 && (row2 == row1 + 1 || row2 == row1 - 1))
  {
    Abs(row1 - row2) + Abs(col1 - col2) == 1
  }

  /** The colouring is a true checkerboard: two adjacent cells never share a colour class. */
  lemma AdjacentColorsDiffer(row1: int, col1: int, row2: int, col2: int)
    requires IsAdjacent(row1, col1, row2, col2)
    ensures ColorAt(row1, col1) != ColorAt(row2, col2)
  {
  }

  // ---------------------------------------------------------------------------
  // Invariants of the field
  // ---------------------------------------------------------------------------

  /**
   * What every reachable field satisfies: each tile's type is one of the configured
   * names, its colour class is the one of its position, and it is not locked.
   */
  ghost predicate WellFormed(b: Board, tileTypes: seq<string>)
  {
    forall r, c :: InBounds(b, r, c) ==>
      b[r][c].tileType in tileTypes && b[r][c].color == ColorAt(r, c) && !b[r][c].isLocked
  }

  /** Every tile is as `initializeGrid` builds it. */
  ghost predicate AllFresh(b: Board, tileTypes: seq<string>)
  {
    forall r, c :: InBounds(b, r, c) ==> IsFreshTile(b[r][c], tileTypes, ColorAt(r, c))
  }

  /**
   * The selection invariant of the click handler: the tile at (r, c) is selected
   * exactly when `selected` holds that cell, and a held cell lies on the field.
   */
  ghost predicate SelectionIs(b: Board, selected: Option<Coord>)
  {
    (selected.Some? ==> InBounds(b, selected.value.row, selected.value.col)) &&
    forall r, c :: InBounds(b, r, c) ==> (b[r][c].isSelected <==> selected == Some(Coord(r, c)))
  }

  /** The addresses of all selected tiles. */
  ghost function SelectedCells(b: Board): set<Coord>
  {
    set r, c | 0 <= r < |b| && 0 <= c < |b[r]| && b[r][c].isSelected :: Coord(r, c)
  }

  /** A freshly built field is well formed and has no tile selected. */
  lemma FreshBoardIsWellFormed(b: Board, tileTypes: seq<string>)
    requires AllFresh(b, tileTypes)
    ensures WellFormed(b, tileTypes)
    ensures SelectionIs(b, None)
  {
  }

  /**
   * Under the selection invariant the selected tiles are exactly the held cell (or none),
   * so at most one tile is ever selected.
   */
  lemma SelectedCellsOfSelection(b: Board, selected: Option<Coord>)
    requires SelectionIs(b, selected)
    ensures SelectedCells(b) == if selected.None? then {} else {selected.value}
    ensures |SelectedCells(b)| <= 1
  {
  }

  // ---------------------------------------------------------------------------
  // The mutations of class Grid, as functions on the field
  // ---------------------------------------------------------------------------

  /**
   * `swapTiles`: the two cells exchange their tile types and nothing else. The source
   * writes the second type into the first cell and then the first type into the second,
   * so when both addresses are the same cell that cell keeps its type.
   */
  function SwapTypes(b: Board, row1: int, col1: int, row2: int, col2: int): (b': Board)
    requires InBounds(b, row1, col1) && InBounds(b, row2, col2)
    ensures SameShape(b, b')
  {
    var type1, type2 := b[row1][col1].tileType, b[row2][col2].tileType;
    seq(|b|, r requires 0 <= r < |b| =>
      seq(|b[r]|, c requires 0 <= c < |b[r]| =>
        if r == row2 && c == col2 then b[r][c].(tileType := type1)
        else if r == row1 && c == col1 then b[r][c].(tileType := type2)
        else b[r][c]))
  }

  /** `setSelected`: only the `isSelected` flag of the addressed tile changes. */
  function SetSelectedAt(b: Board, row: int, col: int, isSelected: bool): (b': Board)
    requires InBounds(b, row, col)
    ensures SameShape(b, b')
  {
    seq(|b|, r requires 0 <= r < |b| =>
      seq(|b[r]|, c requires 0 <= c < |b[r]| =>
        if r == row && c == col then b[r][c].(isSelected := isSelected) else b[r][c]))
  }

  /**
   * `attemptSwap`: a pair at Manhattan distance other than 1 is refused and the field is
   * left as it is; an adjacent pair is always swapped, with no further admission test.
   * The source only reads the cells when the pair is adjacent, so only then must they exist.
   */
  function AttemptSwapOn(b: Board, row1: int, col1: int, row2: int, col2: int): (b': Board)
    requires IsAdjacent(row1, col1, row2, col2) ==> InBounds(b, row1, col1) && InBounds(b, row2, col2)
    ensures SameShape(b, b')
  {
    if IsAdjacent(row1, col1, row2, col2) then SwapTypes(b, row1, col1, row2, col2) else b
  }

  // ---------------------------------------------------------------------------
  // Properties of the mutations
  // ---------------------------------------------------------------------------

  /** An adjacent pair is always swapped: no further admission test applies. */
  lemma AttemptSwapOnAdjacent(b: Board, row1: int, col1: int, row2: int, col2: int)
    requires IsAdjacent(row1, col1, row2, col2)
    requires InBounds(b, row1, col1) && InBounds(b, row2, col2)
    ensures AttemptSwapOn(b, row1, col1, row2, col2) == SwapTypes(b, row1, col1, row2, col2)
  {
  }

  /** A pair at any distance other than 1 leaves the field exactly as it was. */
  lemma AttemptSwapOnNotAdjacent(b: Board, row1: int, col1: int, row2: int, col2: int)
    requires !IsAdjacent(row1, col1, row2, col2)
    ensures AttemptSwapOn(b, row1, col1, row2, col2) == b
  {
  }

  /**
   * A swap exchanges the two types, keeps colour, lock and selection with the position,
   * and leaves every other cell as it was.
   */
  lemma SwapTypesEffect(b: Board, row1: int, col1: int, row2: int, col2: int)
    requires InBounds(b, row1, col1) && InBounds(b, row2, col2)
    ensures var b' := SwapTypes(b, row1, col1, row2, col2);
      b'[row1][col1].tileType == b[row2][col2].tileType &&
      b'[row2][col2].tileType == b[row1][col1].tileType &&
      forall r, c :: InBounds(b, r, c) ==>
        b'[r][c].color == b[r][c].color &&
        b'[r][c].isLocked == b[r][c].isLocked &&
        b'[r][c].isSelected == b[r][c].isSelected &&
        (Coord(r, c) != Coord(row1, col1) && Coord(r, c) != Coord(row2, col2) ==> b'[r][c] == b[r][c])
  {
  }

  /** Swapping the same pair twice gives back the original field. */
  lemma SwapTypesInvolutive(b: Board, row1: int, col1: int, row2: int, col2: int)
    requires InBounds(b, row1, col1) && InBounds(b, row2, col2)
    ensures SwapTypes(SwapTypes(b, row1, col1, row2, col2), row1, col1, row2, col2) == b
  {
    var once := SwapTypes(b, row1, col1, row2, col2);
    var twice := SwapTypes(once, row1, col1, row2, col2);
    forall r | 0 <= r < |b|
      ensures twice[r] == b[r]
    {
      forall c | 0 <= c < |b[r]|
        ensures twice[r][c] == b[r][c]
      {
      }
    }
  }

  /** Swapping the pair in the other order has the same effect. */
  lemma SwapTypesSymmetric(b: Board, row1: int, col1: int, row2: int, col2: int)
    requires InBounds(b, row1, col1) && InBounds(b, row2, col2)
    ensures SwapTypes(b, row1, col1, row2, col2) == SwapTypes(b, row2, col2, row1, col1)
  {
    var one := SwapTypes(b, row1, col1, row2, col2);
    var other := SwapTypes(b, row2, col2, row1, col1);
    forall r | 0 <= r < |b|
      ensures one[r] == other[r]
    {
      forall c | 0 <= c < |b[r]|
        ensures one[r][c] == other[r][c]
      {
      }
    }
  }

  /**
   * An attempted swap changes the field exactly when the cells are adjacent and hold
   * different types; a refused pair, including a cell paired with itself, changes nothing.
   */
  lemma AttemptSwapChangesIff(b: Board, row1: int, col1: int, row2: int, col2: int)
    requires IsAdjacent(row1, col1, row2, col2) ==> InBounds(b, row1, col1) && InBounds(b, row2, col2)
    ensures AttemptSwapOn(b, row1, col1, row2, col2) != b <==>
      IsAdjacent(row1, col1, row2, col2) && b[row1][col1].tileType != b[row2][col2].tileType
  {
    if IsAdjacent(row1, col1, row2, col2) {
      var b': Board := SwapTypes(b, row1, col1, row2, col2);
      if b[row1][col1].tileType != b[row2][col2].tileType {
        assert b'[row1][col1].tileType != b[row1][col1].tileType;
      } else {
        forall r | 0 <= r < |b|
          ensures b'[r] == b[r]
        {
          forall c | 0 <= c < |b[r]|
            ensures b'[r][c] == b[r][c]
          {
          }
        }
      }
    }
  }

  /** Setting the flag changes only that tile's flag, and leaves every other tile alone. */
  lemma SetSelectedEffect(b: Board, row: int, col: int, isSelected: bool)
    requires InBounds(b, row, col)
    ensures var b' := SetSelectedAt(b, row, col, isSelected);
      b'[row][col] == b[row][col].(isSelected := isSelected) &&
      forall r, c :: InBounds(b, r, c) && Coord(r, c) != Coord(row, col) ==> b'[r][c] == b[r][c]
  {
  }

  lemma SwapTypesPreservesWellFormed(b: Board, tileTypes: seq<string>, row1: int, col1: int, row2: int, col2: int)
    requires WellFormed(b, tileTypes)
    requires InBounds(b, row1, col1) && InBounds(b, row2, col2)
    ensures WellFormed(SwapTypes(b, row1, col1, row2, col2), tileTypes)
  {
  }

  lemma SetSelectedPreservesWellFormed(b: Board, tileTypes: seq<string>, row: int, col: int, isSelected: bool)
    requires WellFormed(b, tileTypes)
    requires InBounds(b, row, col)
    ensures WellFormed(SetSelectedAt(b, row, col, isSelected), tileTypes)
  {
  }

  /** A swap moves no selection: it exchanges types only. */
  lemma SwapTypesKeepsSelection(b: Board, selected: Option<Coord>, row1: int, col1: int, row2: int, col2: int)
    requires SelectionIs(b, selected)
    requires InBounds(b, row1, col1) && InBounds(b, row2, col2)
    ensures SelectionIs(SwapTypes(b, row1, col1, row2, col2), selected)
  {
  }
}
