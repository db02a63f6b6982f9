/** The mapping of a mouse click to a square or to a wall slot: the pixel
    lies in the square (y // SQUARE_SIZE, x // SQUARE_SIZE), and a click
    within WALL_THICKNESS of one of its edges, away from the corners,
    picks the wall slot on that edge. */
module Mouse {
  import opened Constants
  import opened Walls

  /** What a click selects: a square, or a wall slot with its orientation. */
  datatype Selection = Square(row: int, col: int) | WallSlot(orientation: Orientation, row: int, col: int)

  /** The exception get_selection_from_mouse raises, or its answer. */
  datatype Outcome = InvalidSelection | Selected(selection: Selection)

  /** Where the click falls inside its square, and which square that is.
      Python's // and % floor, as Dafny's do for a positive divisor. */
  function SquareOf(x: int, y: int): (int, int) {
    (y / SQUARE_SIZE, x / SQUARE_SIZE)
  }

  /** An offset inside a square that is not within WALL_THICKNESS of either edge. */
  predicate Inner(rem: int) {
    WALL_THICKNESS <= rem <= SQUARE_SIZE - WALL_THICKNESS
  }

  /** get_selection_from_mouse: beyond the last row or column the click is
      invalid; otherwise the horizontal slots above and below are tested
      first, then the vertical ones left and right, and any other click,
      corners included, selects the square. */
  function GetSelectionFromMouse(x: int, y: int): (o: Outcome)
    ensures o == InvalidSelection <==> y / SQUARE_SIZE >= ROWS || x / SQUARE_SIZE >= COLS
  {
    var (row, col) := SquareOf(x, y);
    if row >= ROWS || col >= COLS then InvalidSelection
    else
      var xRem, yRem := x % SQUARE_SIZE, y % SQUARE_SIZE;
      if Inner(xRem) && yRem < WALL_THICKNESS then Selected(WallSlot(Horizontal, row, col))
      else if Inner(xRem) && yRem > SQUARE_SIZE - WALL_THICKNESS then Selected(WallSlot(Horizontal, row + 1, col))
      else if Inner(yRem) && xRem < WALL_THICKNESS then Selected(WallSlot(Vertical, row, col))
      else if Inner(yRem) && xRem > SQUARE_SIZE - WALL_THICKNESS then Selected(WallSlot(Vertical, row, col + 1))
      else Selected(Square(row, col))
  }

  /** A selected square is the one the click lies in, and so is the
      column, or the row, of a selected wall slot. */
  lemma SelectionContainsClick(x: int, y: int)
    requires GetSelectionFromMouse(x, y).Selected?
    ensures match GetSelectionFromMouse(x, y).selection
            case Square(r, c) =>
              r * SQUARE_SIZE <= y < (r + 1) * SQUARE_SIZE && c * SQUARE_SIZE <= x < (c + 1) * SQUARE_SIZE
            case WallSlot(o, r, c) =>
              (o == Horizontal ==> c * SQUARE_SIZE + WALL_THICKNESS <= x <= (c + 1) * SQUARE_SIZE - WALL_THICKNESS) &&
              (o == Vertical ==> r * SQUARE_SIZE + WALL_THICKNESS <= y <= (r + 1) * SQUARE_SIZE - WALL_THICKNESS)
  {
    var row, col := y / SQUARE_SIZE, x / SQUARE_SIZE;
    assert row * SQUARE_SIZE + y % SQUARE_SIZE == y;
    assert col * SQUARE_SIZE + x % SQUARE_SIZE == x;
  }

  /** A wall slot is picked only by a click within WALL_THICKNESS of the
      grid line it lies on: the line y = row * SQUARE_SIZE for a
      horizontal slot, x = col * SQUARE_SIZE for a vertical one. */
  lemma WallSlotNearLine(x: int, y: int)
    requires GetSelectionFromMouse(x, y).Selected? && GetSelectionFromMouse(x, y).selection.WallSlot?
    ensures var s := GetSelectionFromMouse(x, y).selection;
            (s.orientation == Horizontal ==> s.row * SQUARE_SIZE - WALL_THICKNESS < y < s.row * SQUARE_SIZE + WALL_THICKNESS) &&
            (s.orientation == Vertical ==> s.col * SQUARE_SIZE - WALL_THICKNESS < x < s.col * SQUARE_SIZE + WALL_THICKNESS)
  {
    var row, col := y / SQUARE_SIZE, x / SQUARE_SIZE;
    assert row * SQUARE_SIZE + y % SQUARE_SIZE == y;
    assert col * SQUARE_SIZE + x % SQUARE_SIZE == x;
  }

  /** A click away from every edge of its square, or in one of its corners,
      selects the square. */
  lemma CentreAndCornersSelectSquare(x: int, y: int)
    requires 0 <= y < ROWS * SQUARE_SIZE && 0 <= x < COLS * SQUARE_SIZE
    requires (Inner(x % SQUARE_SIZE) && Inner(y % SQUARE_SIZE)) ||
             (!Inner(x % SQUARE_SIZE) && !Inner(y % SQUARE_SIZE))
    ensures GetSelectionFromMouse(x, y) == Selected(Square(y / SQUARE_SIZE, x / SQUARE_SIZE))
  {}

  /** The horizontal test wins where a click qualifies for both: a click in
      the upper band of its square, away from the corners, always picks the
      horizontal slot above. */
  lemma HorizontalFirst(x: int, y: int)
    requires 0 <= y < ROWS * SQUARE_SIZE && 0 <= x < COLS * SQUARE_SIZE
    requires Inner(x % SQUARE_SIZE) && y % SQUARE_SIZE < WALL_THICKNESS
    ensures GetSelectionFromMouse(x, y) == Selected(WallSlot(Horizontal, y / SQUARE_SIZE, x / SQUARE_SIZE))
  {}

  /** Clicks on a 9 x 9 board of 80-pixel squares: the middle of the top left
      square, the top band of the square (4, 4), the right band of the
      square (2, 3) and a click right of the board. */
  lemma ExampleClicks()
    ensures GetSelectionFromMouse(40, 40) == Selected(Square(0, 0))
    ensures GetSelectionFromMouse(360, 325) == Selected(WallSlot(Horizontal, 4, 4))
    ensures GetSelectionFromMouse(315, 200) == Selected(WallSlot(Vertical, 2, 4))
    ensures GetSelectionFromMouse(720, 10) == InvalidSelection
  {}
}
