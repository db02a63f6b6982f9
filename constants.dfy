/** The game's fixed dimensions and the two sides.  The constants module of
    the program is not part of this model; the board is the 9 x 9 board the
    rules and tests describe, and the pixel sizes are declared values that
    satisfy 2 * WALL_THICKNESS < SQUARE_SIZE. */
module Constants {
  const ROWS: int := 9
  const COLS: int := 9
  const SQUARE_SIZE: int := 80
  const WALL_THICKNESS: int := 10
  /** Walls each side starts with. */
  const START_WALLS: int := 10

  /** The two pawn colours; WHITE moves first and heads for row 0. */
  datatype Color = White | Black

  /** opposite_color: WHITE for BLACK and BLACK for WHITE. */
  function Opposite(c: Color): (o: Color)
    ensures o != c
  {
    if c == Black then White else Black
  }
}
