/** A pawn: its cell, its colour and the pixel centre it is drawn at. */
module Pieces {
  import opened Constants
  import opened Options

  /** A board cell: empty (the program's 0) or holding the pawn of a colour. */
  datatype Cell = Empty | Pawn(color: Color)

  /** A cell coordinate (row, col). */
  type Pos = (int, int)

  /** The occupancy grid: a list of ROWS rows of COLS cells. */
  type Grid = seq<seq<Cell>>

  predicate InBounds(p: Pos) {
    0 <= p.0 < ROWS && 0 <= p.1 < COLS
  }

  predicate IsGrid(g: Grid) {
    |g| == ROWS && forall r :: 0 <= r < ROWS ==> |g[r]| == COLS
  }

  function At(g: Grid, p: Pos): Cell
    requires IsGrid(g) && InBounds(p)
  {
    g[p.0][p.1]
  }

  /** Position of a cell in the row-major order the program's nested loops visit. */
  function Index(p: Pos): int {
    p.0 * COLS + p.1
  }

  /** The n-th cell in row-major order. */
  function CellOf(n: int): (p: Pos)
    requires 0 <= n < ROWS * COLS
    ensures InBounds(p) && Index(p) == n
  {
    (n / COLS, n % COLS)
  }

  lemma IndexInjective(p: Pos, q: Pos)
    requires InBounds(p) && InBounds(q) && Index(p) == Index(q)
    ensures p == q
  {}

  lemma CellOfIndex(p: Pos)
    requires InBounds(p)
    ensures CellOf(Index(p)) == p
  {
    IndexInjective(CellOf(Index(p)), p);
  }

  /** The last pawn of the colour among the first n cells in row-major
      order: the cell a scan that overwrites on every match ends with. */
  function LastPawn(g: Grid, color: Color, n: int): Option<Pos>
    requires IsGrid(g) && 0 <= n <= ROWS * COLS
  {
    if n == 0 then None
    else
      var p := CellOf(n - 1);
      if At(g, p) == Pawn(color) then Some(p) else LastPawn(g, color, n - 1)
  }

  /** One more cell of the scan: a match replaces the recorded position. */
  lemma LastPawnNext(g: Grid, color: Color, n: int)
    requires IsGrid(g) && 0 <= n < ROWS * COLS
    ensures LastPawn(g, color, n + 1) ==
            if At(g, CellOf(n)) == Pawn(color) then Some(CellOf(n)) else LastPawn(g, color, n)
  {}

  /** LastPawn finds a pawn of the colour with none after it before n, or
      reports that the first n cells hold none. */
  lemma {:induction false} LastPawnSpec(g: Grid, color: Color, n: int)
    requires IsGrid(g) && 0 <= n <= ROWS * COLS
    ensures var o := LastPawn(g, color, n);
      o.Some? ==> InBounds(o.value) && Index(o.value) < n && At(g, o.value) == Pawn(color) &&
                  forall q :: InBounds(q) && Index(o.value) < Index(q) < n ==> At(g, q) != Pawn(color)
    ensures LastPawn(g, color, n).None? <==> forall q :: InBounds(q) && Index(q) < n ==> At(g, q) != Pawn(color)
  {
    if n > 0 {
      LastPawnSpec(g, color, n - 1);
      var p := CellOf(n - 1);
      forall q | InBounds(q) && Index(q) == n - 1 ensures q == p {
        IndexInjective(p, q);
      }
    }
  }

  /** The first pawn of the colour at or after row-major position n: the
      cell a scan that returns on the first match finds. */
  function FirstPawn(g: Grid, color: Color, n: int): Option<Pos>
    requires IsGrid(g) && 0 <= n <= ROWS * COLS
    decreases |g| * COLS - n
  {
    if n == ROWS * COLS then None
    else
      var p := CellOf(n);
      if At(g, p) == Pawn(color) then Some(p) else FirstPawn(g, color, n + 1)
  }

  /** FirstPawn finds a pawn of the colour with none before it from n on,
      or reports that the cells from n on hold none. */
  lemma {:induction false} FirstPawnSpec(g: Grid, color: Color, n: int)
    requires IsGrid(g) && 0 <= n <= ROWS * COLS
    ensures var o := FirstPawn(g, color, n);
      o.Some? ==> InBounds(o.value) && n <= Index(o.value) && At(g, o.value) == Pawn(color) &&
                  forall q :: InBounds(q) && n <= Index(q) < Index(o.value) ==> At(g, q) != Pawn(color)
    ensures FirstPawn(g, color, n).None? <==> forall q :: InBounds(q) && n <= Index(q) ==> At(g, q) != Pawn(color)
    decreases ROWS * COLS - n
  {
    if n < ROWS * COLS {
      FirstPawnSpec(g, color, n + 1);
      var p := CellOf(n);
      forall q | InBounds(q) && Index(q) == n ensures q == p {
        IndexInjective(p, q);
      }
    }
  }

  /** The pawn of the colour stands on p and on no other cell. */
  ghost predicate PawnOnlyAt(g: Grid, color: Color, p: Pos)
    requires IsGrid(g)
  {
    InBounds(p) && At(g, p) == Pawn(color) &&
    forall q :: InBounds(q) && q != p ==> At(g, q) != Pawn(color)
  }

  /** With a single pawn of the colour, the first-match and last-match scans agree on it. */
  lemma ScansFindOnlyPawn(g: Grid, color: Color, p: Pos)
    requires IsGrid(g) && PawnOnlyAt(g, color, p)
    ensures FirstPawn(g, color, 0) == Some(p)
    ensures LastPawn(g, color, ROWS * COLS) == Some(p)
  {
    FirstPawnSpec(g, color, 0);
    LastPawnSpec(g, color, ROWS * COLS);
    assert Index(p) < ROWS * COLS;
  }

  /** A right-hand operand of `==`: a pawn's (row, col, color), or anything
      that is not a Piece, such as the 0 of an empty cell. */
  datatype Operand = PieceOperand(row: int, col: int, color: Color) | NotAPiece

  /** Pixel coordinate of the centre of cell index i. */
  function Centre(i: int): (p: int)
    ensures i * SQUARE_SIZE <= p < (i + 1) * SQUARE_SIZE
  {
    SQUARE_SIZE * i + SQUARE_SIZE / 2
  }

  class Piece {
    var row: int
    var col: int
    var color: Color
    var x: int
    var y: int

    constructor (row: int, col: int, color: Color)
      ensures this.row == row && this.col == col && this.color == color
      ensures x == Centre(col) && y == Centre(row)
    {
      this.row := row;
      this.col := col;
      this.color := color;
      x := 0;
      y := 0;
      new;
      CalcPos();
    }

    /** Recomputes the pixel centre from the cell. */
    method CalcPos()
      modifies this
      ensures x == Centre(col) && y == Centre(row)
      ensures row == old(row) && col == old(col) && color == old(color)
    {
      x := SQUARE_SIZE * col + SQUARE_SIZE / 2;
      y := SQUARE_SIZE * row + SQUARE_SIZE / 2;
    }

    method Move(row: int, col: int)
      modifies this
      ensures this.row == row && this.col == col && color == old(color)
      ensures x == Centre(col) && y == Centre(row)
    {
      this.row := row;
      this.col := col;
      CalcPos();
    }

    /** The fields equality looks at. */
    function Key(): Operand
      reads this
    {
      PieceOperand(row, col, color)
    }

    /** Piece equality: structural on row, column and colour, and false
        against anything that is not a Piece. */
    predicate Equals(other: Operand)
      reads this
    {
      match other
      case PieceOperand(r, c, k) => row == r && col == c && color == k
      case NotAPiece => false
    }

    /** copy.deepcopy of a piece: a new object with the same fields. */
    method DeepCopy() returns (p: Piece)
      ensures fresh(p)
      ensures p.row == row && p.col == col && p.color == color && p.x == x && p.y == y
      ensures Equals(p.Key()) && p.Equals(Key())
    {
      p := new Piece(row, col, color);
      p.x, p.y := x, y;
    }
  }

  /** Equality depends on the fields only, so it is true of two distinct
      objects with the same fields, and never true against a non-Piece. */
  lemma EqualsIsStructural(p: Piece, q: Piece)
    ensures p.Equals(q.Key()) <==> (p.row == q.row && p.col == q.col && p.color == q.color)
    ensures !p.Equals(NotAPiece)
  {}
}
