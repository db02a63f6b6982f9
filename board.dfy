/** The rules of the board as values: the state a Board object holds, the
    legal walls, wall placement and its overlap pruning, edge blocking, pawn
    moves, the winner and the evaluation features. */
module BoardRules {
  import opened Constants
  import opened Options
  import opened Walls
  import opened Pieces
  import opened Pathfinding

  /** The four evaluation weights: path, wall, blockade and forward. */
  datatype Weights = Weights(path: real, wall: real, block: real, forward: real)

  /** The evaluator a board carries: the fixed one of a plain Board, or the
      per-side weights of a TrainingBoard (white's first, black's second). */
  datatype Evaluator = Standard | Trained(white: Weights, black: Weights)

  /** The fields of a Board object. */
  datatype BoardState = BoardState(
    grid: Grid,
    h: set<Anchor>,
    v: set<Anchor>,
    valid: set<Wall>,
    blackWalls: int,
    whiteWalls: int,
    evaluator: Evaluator)

  function Anchor(w: Wall): Anchor {
    (w.row, w.col)
  }

  // ---------------------------------------------------------------------
  // The opening position.

  /** The grid create_board builds: empty cells, black on (0, COLS/2) and
      white on (ROWS-1, COLS/2). */
  function InitialGrid(): Grid {
    var empty := seq(ROWS, _ => seq(COLS, _ => Empty));
    var g := empty[0 := empty[0][COLS / 2 := Pawn(Black)]];
    g[ROWS - 1 := g[ROWS - 1][COLS / 2 := Pawn(White)]]
  }

  /** A wall precompute_valid_walls lists: horizontal anchors on rows
      0..ROWS-2 and columns 0..COLS-2, vertical anchors on rows 1..ROWS-1
      and columns 1..COLS-1. */
  predicate InUniverse(w: Wall) {
    match w.orientation
    case Horizontal => 0 <= w.row < ROWS - 1 && 0 <= w.col < COLS - 1
    case Vertical => 1 <= w.row < ROWS && 1 <= w.col < COLS
  }

  // ---------------------------------------------------------------------
  // Invariants.

  /** Exactly one pawn of each colour, on a ROWS x COLS grid. */
  ghost predicate PawnsPlaced(g: Grid) {
    IsGrid(g) &&
    FirstPawn(g, Black, 0).Some? && PawnOnlyAt(g, Black, FirstPawn(g, Black, 0).value) &&
    FirstPawn(g, White, 0).Some? && PawnOnlyAt(g, White, FirstPawn(g, White, 0).value)
  }

  /** Where the pawn of a colour stands. */
  function PawnPos(s: BoardState, c: Color): (p: Pos)
    requires IsGrid(s.grid) && FirstPawn(s.grid, c, 0).Some?
    ensures InBounds(p) && At(s.grid, p) == Pawn(c)
  {
    FirstPawnSpec(s.grid, c, 0);
    FirstPawn(s.grid, c, 0).value
  }

  /** Wall u has been placed (its anchor is in its orientation's set). */
  ghost predicate Placed(s: BoardState, u: Wall) {
    match u.orientation
    case Horizontal => Anchor(u) in s.h
    case Vertical => Anchor(u) in s.v
  }

  /** Two walls that cannot both stand: the same wall, two walls of one
      orientation one cell apart along their length, or a horizontal wall
      (r, c) and the vertical wall (r+1, c+1) that crosses its middle. */
  predicate Conflict(u: Wall, w: Wall) {
    if u.orientation == w.orientation then
      match u.orientation
      case Horizontal => u.row == w.row && -1 <= u.col - w.col <= 1
      case Vertical => u.col == w.col && -1 <= u.row - w.row <= 1
    else
      var (hw, vw) := if u.orientation == Horizontal then (u, w) else (w, u);
      vw.row == hw.row + 1 && vw.col == hw.col + 1
  }

  /** The walls place_wall deletes from the legal set when it places w. */
  function ConflictSet(w: Wall): set<Wall> {
    match w.orientation
    case Horizontal =>
      {w, Wall(w.row, w.col + 1, Horizontal), Wall(w.row, w.col - 1, Horizontal),
       Wall(w.row + 1, w.col + 1, Vertical)}
    case Vertical =>
      {w, Wall(w.row + 1, w.col, Vertical), Wall(w.row - 1, w.col, Vertical),
       Wall(w.row - 1, w.col - 1, Horizontal)}
  }

  /** The pruning removes precisely the walls that conflict with w. */
  lemma ConflictSetIsConflicts(w: Wall, u: Wall)
    ensures u in ConflictSet(w) <==> Conflict(u, w)
  {}

  lemma ConflictSymmetric(u: Wall, w: Wall)
    ensures Conflict(u, w) <==> Conflict(w, u)
  {}

  /** Lists only walls of the universe, and no legal wall conflicts with a placed one. */
  ghost predicate WallsConsistent(s: BoardState) {
    (forall w :: w in s.valid ==> InUniverse(w)) &&
    (forall w, u :: w in s.valid && Placed(s, u) ==> !Conflict(w, u))
  }

  /** The invariant every reachable board keeps. */
  ghost predicate Valid(s: BoardState) {
    PawnsPlaced(s.grid) && WallsConsistent(s)
  }

  // ---------------------------------------------------------------------
  // Walls.

  /** The state with w's anchor added to the set of its orientation. */
  function AddWall(s: BoardState, w: Wall): BoardState {
    match w.orientation
    case Horizontal => s.(h := s.h + {Anchor(w)})
    case Vertical => s.(v := s.v + {Anchor(w)})
  }

  /** place_wall: the anchor is added and w with its conflicting walls leaves the legal set. */
  function PlaceWallState(s: BoardState, w: Wall): BoardState {
    AddWall(s, w).(valid := s.valid - ConflictSet(w))
  }

  lemma PlacedAfterAdd(s: BoardState, w: Wall, u: Wall)
    ensures Placed(AddWall(s, w), u) <==> Placed(s, u) || u == w
  {}

  /** Placing a legal wall keeps the legal set inside the universe and free
      of conflicts with every placed wall, the new one included. */
  lemma PlaceWallKeepsConsistent(s: BoardState, w: Wall)
    requires WallsConsistent(s) && w in s.valid
    ensures WallsConsistent(PlaceWallState(s, w))
  {
    var s' := PlaceWallState(s, w);
    forall x, u | x in s'.valid && Placed(s', u) ensures !Conflict(x, u) {
      PlacedAfterAdd(s, w, u);
      ConflictSetIsConflicts(w, x);
    }
  }

  /** The two pawns can reach their goal rows with the walls of s. */
  ghost predicate GoalsReachable(s: BoardState)
    requires PawnsPlaced(s.grid)
  {
    BothReachGoals(s.h, s.v, PawnPos(s, Black), PawnPos(s, White))
  }

  /** is_valid_wall: w is still legal, and with its anchor added both pawns
      can still reach their goal rows. */
  ghost predicate LegalWall(s: BoardState, w: Wall)
    requires PawnsPlaced(s.grid)
  {
    w in s.valid && GoalsReachable(AddWall(s, w))
  }

  /** The state with w's anchor taken out of the set of its orientation:
      what is_valid_wall leaves behind after its speculative add. */
  function WithoutAnchor(s: BoardState, w: Wall): BoardState {
    match w.orientation
    case Horizontal => s.(h := s.h - {Anchor(w)})
    case Vertical => s.(v := s.v - {Anchor(w)})
  }

  /** A still-legal wall is not placed yet (it would conflict with itself),
      so removing its anchor after the speculative add restores the state. */
  lemma SpeculativeAddRestores(s: BoardState, w: Wall)
    requires WallsConsistent(s) && w in s.valid
    ensures !Placed(s, w)
    ensures WithoutAnchor(s, w) == s
  {
    assert Conflict(w, w);
  }

  /** With one pawn of each colour, path_exists's last-match scan finds the
      same cells as get_piece_by_color's first-match scan. */
  lemma ScansAgree(g: Grid)
    requires PawnsPlaced(g)
    ensures LastPawn(g, Black, ROWS * COLS) == FirstPawn(g, Black, 0)
    ensures LastPawn(g, White, ROWS * COLS) == FirstPawn(g, White, 0)
  {
    ScansFindOnlyPawn(g, Black, FirstPawn(g, Black, 0).value);
    ScansFindOnlyPawn(g, White, FirstPawn(g, White, 0).value);
  }

  /** A wall is_valid_wall accepts leaves both pawns a path once placed. */
  lemma LegalWallKeepsPaths(s: BoardState, w: Wall)
    requires PawnsPlaced(s.grid) && LegalWall(s, w)
    ensures PawnsPlaced(PlaceWallState(s, w).grid) && GoalsReachable(PlaceWallState(s, w))
  {}

  // ---------------------------------------------------------------------
  // Edges.

  /** is_wall_between: whether a wall anchor closes the edge between two
      cells; only same-row or same-column moves can be blocked. */
  function IsWallBetween(h: set<Anchor>, v: set<Anchor>, row1: int, col1: int, row2: int, col2: int): bool {
    if row1 == row2 then
      if col1 < col2 then (row2, col2) in v || (row2 + 1, col2) in v
      else if col1 > col2 then (row1, col1) in v || (row1 + 1, col1) in v
      else false
    else if col1 == col2 then
      if row1 < row2 then (row1, col1) in h || (row1, col1 - 1) in h
      else (row2, col2) in h || (row2, col2 - 1) in h
    else false
  }

  /** Between orthogonal neighbours on the board, an edge is open for a
      pawn exactly when the search grid joins the two cells. */
  lemma WallBetweenMatchesAdjacent(h: set<Anchor>, v: set<Anchor>, p: Pos, q: Pos)
    requires InBounds(p) && InBounds(q)
    requires (p.0 == q.0 && (q.1 == p.1 + 1 || q.1 == p.1 - 1)) || (p.1 == q.1 && (q.0 == p.0 + 1 || q.0 == p.0 - 1))
    ensures !IsWallBetween(h, v, p.0, p.1, q.0, q.1) <==> Adjacent(h, v, p, q)
  {}

  lemma WallBetweenSymmetric(h: set<Anchor>, v: set<Anchor>, row1: int, col1: int, row2: int, col2: int)
    ensures IsWallBetween(h, v, row1, col1, row2, col2) == IsWallBetween(h, v, row2, col2, row1, col1)
  {}

  /** Cells that are not orthogonal neighbours are never separated by a wall. */
  lemma WallBetweenOnlyNeighbours(h: set<Anchor>, v: set<Anchor>, row1: int, col1: int, row2: int, col2: int)
    requires row1 != row2 && col1 != col2
    ensures !IsWallBetween(h, v, row1, col1, row2, col2)
  {}

  /** A horizontal anchor (r, c) closes the vertical steps between rows r
      and r+1 in columns c and c+1; a vertical anchor (r, c) closes the
      sideways steps between columns c-1 and c in rows r-1 and r. */
  lemma AnchorsBlock(h: set<Anchor>, v: set<Anchor>, r: int, c: int)
    ensures (r, c) in h ==> IsWallBetween(h, v, r, c, r + 1, c) && IsWallBetween(h, v, r, c + 1, r + 1, c + 1)
    ensures (r, c) in v ==> IsWallBetween(h, v, r, c - 1, r, c) && IsWallBetween(h, v, r - 1, c - 1, r - 1, c)
  {}

  // ---------------------------------------------------------------------
  // Pawn moves.

  /** The step directions, in the order the program tries them. */
  const Directions: seq<Pos> := [(0, 1), (0, -1), (1, 0), (-1, 0)]

  function Shift(p: Pos, d: Pos): Pos {
    (p.0 + d.0, p.1 + d.1)
  }

  /** A step from a onto the board cell b with no wall across the edge. */
  predicate OpenStep(s: BoardState, a: Pos, b: Pos) {
    InBounds(b) && !IsWallBetween(s.h, s.v, a.0, a.1, b.0, b.1)
  }

  /** b can be entered from a: an open step onto an empty cell. */
  predicate OpenTo(s: BoardState, a: Pos, b: Pos)
    requires IsGrid(s.grid)
  {
    OpenStep(s, a, b) && At(s.grid, b) == Empty
  }

  /** The cells beside an occupied cell n that a pawn can slide onto. */
  function Sideways(s: BoardState, n: Pos): set<Pos>
    requires IsGrid(s.grid)
  {
    set e | e in Directions && OpenTo(s, n, Shift(n, e)) :: Shift(n, e)
  }

  /** The landing cells of a pawn on p moving in direction d: the
      neighbour if it is empty; over an occupied neighbour, the cell
      straight beyond it if that is open; otherwise the open cells beside
      the neighbour. */
  function Landings(s: BoardState, p: Pos, d: Pos): set<Pos>
    requires IsGrid(s.grid)
  {
    var n := Shift(p, d);
    if !OpenStep(s, p, n) then {}
    else if At(s.grid, n) == Empty then {n}
    else if OpenTo(s, n, Shift(n, d)) then {Shift(n, d)}
    else Sideways(s, n)
  }

  /** The landings in the first k directions of Directions, the order
      get_valid_moves tries them in. */
  function LandingsUpTo(s: BoardState, p: Pos, k: nat): (m: set<Pos>)
    requires IsGrid(s.grid) && k <= |Directions|
    ensures forall q :: q in m ==> InBounds(q) && At(s.grid, q) == Empty
  {
    if k == 0 then {} else LandingsUpTo(s, p, k - 1) + Landings(s, p, Directions[k - 1])
  }

  /** get_valid_moves for a pawn on p: the landings of all four directions. */
  function ValidMoves(s: BoardState, p: Pos): (m: set<Pos>)
    requires IsGrid(s.grid)
    ensures forall q :: q in m ==> InBounds(q) && At(s.grid, q) == Empty
  {
    LandingsUpTo(s, p, |Directions|)
  }

  /** The destinations are the union of the four directions' landings. */
  lemma ValidMovesByDirection(s: BoardState, p: Pos)
    requires IsGrid(s.grid)
    ensures ValidMoves(s, p) == Landings(s, p, Directions[0]) + Landings(s, p, Directions[1]) +
                                Landings(s, p, Directions[2]) + Landings(s, p, Directions[3])
  {
    assert |Directions| == 4;
    assert LandingsUpTo(s, p, 4) == LandingsUpTo(s, p, 3) + Landings(s, p, Directions[3]);
    assert LandingsUpTo(s, p, 3) == LandingsUpTo(s, p, 2) + Landings(s, p, Directions[2]);
    assert LandingsUpTo(s, p, 2) == LandingsUpTo(s, p, 1) + Landings(s, p, Directions[1]);
    assert LandingsUpTo(s, p, 1) == Landings(s, p, Directions[0]);
  }

  /** Every destination is an empty cell of the board, so never the start. */
  lemma ValidMovesAreEmptyCells(s: BoardState, p: Pos, q: Pos)
    requires IsGrid(s.grid) && q in ValidMoves(s, p)
    ensures InBounds(q) && At(s.grid, q) == Empty
    ensures InBounds(p) && At(s.grid, p) != Empty ==> q != p
  {}

  /** q is one open edge from p, or two open edges through an occupied cell. */
  ghost predicate OneOrTwoSteps(h: set<Anchor>, v: set<Anchor>, grid: Grid, p: Pos, q: Pos)
    requires IsGrid(grid)
  {
    Adjacent(h, v, p, q) || exists n :: Adjacent(h, v, p, n) && Adjacent(h, v, n, q) && At(grid, n) != Empty
  }

  /** Every destination is one open edge from p, or two open edges through
      the cell of the pawn jumped over or slid past. */
  lemma ValidMoveIsOneOrTwoSteps(s: BoardState, p: Pos, q: Pos)
    requires IsGrid(s.grid) && InBounds(p) && q in ValidMoves(s, p)
    ensures OneOrTwoSteps(s.h, s.v, s.grid, p, q)
  {
    ValidMovesByDirection(s, p);
    var i :| 0 <= i < 4 && q in Landings(s, p, Directions[i]);
    LandingIsOneOrTwoSteps(s, p, Directions[i], q);
  }

  lemma LandingIsOneOrTwoSteps(s: BoardState, p: Pos, d: Pos, q: Pos)
    requires IsGrid(s.grid) && InBounds(p) && d in Directions && q in Landings(s, p, d)
    ensures OneOrTwoSteps(s.h, s.v, s.grid, p, q)
  {
    var n := Shift(p, d);
    WallBetweenMatchesAdjacent(s.h, s.v, p, n);
    if At(s.grid, n) != Empty {
      if OpenTo(s, n, Shift(n, d)) {
        assert q == Shift(n, d);
      } else {
        var e :| e in Directions && OpenTo(s, n, Shift(n, e)) && q == Shift(n, e);
      }
      WallBetweenMatchesAdjacent(s.h, s.v, n, q);
      assert Adjacent(s.h, s.v, p, n) && Adjacent(s.h, s.v, n, q) && At(s.grid, n) != Empty;
    }
  }

  // ---------------------------------------------------------------------
  // Moving a pawn.

  function SetCell(g: Grid, p: Pos, c: Cell): Grid
    requires IsGrid(g) && InBounds(p)
  {
    g[p.0 := g[p.0][p.1 := c]]
  }

  /** The grid after move_piece's tuple assignment: the cell at b gets a's
      content and the cell at a gets b's. */
  function Swap(g: Grid, a: Pos, b: Pos): (g': Grid)
    requires IsGrid(g) && InBounds(a) && InBounds(b)
    ensures IsGrid(g')
  {
    SetCell(SetCell(g, a, At(g, b)), b, At(g, a))
  }

  /** move_piece exchanges the contents of the two cells and leaves every other cell alone. */
  lemma SwapCells(g: Grid, a: Pos, b: Pos, q: Pos)
    requires IsGrid(g) && InBounds(a) && InBounds(b) && InBounds(q)
    ensures At(Swap(g, a, b), q) == if q == b then At(g, a) else if q == a then At(g, b) else At(g, q)
  {}

  /** Moving a pawn onto an empty cell keeps one pawn of each colour, and
      the moved pawn is found on its new cell. */
  lemma SwapKeepsPawns(g: Grid, a: Pos, b: Pos)
    requires PawnsPlaced(g) && InBounds(a) && InBounds(b) && At(g, b) == Empty && At(g, a) != Empty
    ensures PawnsPlaced(Swap(g, a, b))
    ensures FirstPawn(Swap(g, a, b), At(g, a).color, 0) == Some(b)
    ensures FirstPawn(Swap(g, a, b), Opposite(At(g, a).color), 0) == FirstPawn(g, Opposite(At(g, a).color), 0)
  {
    var g' := Swap(g, a, b);
    var c := At(g, a).color;
    var o := Opposite(c);
    FirstPawnSpec(g, c, 0);
    FirstPawnSpec(g, o, 0);
    var po := FirstPawn(g, o, 0).value;
    assert FirstPawn(g, c, 0) == Some(a) by {
      ScansFindOnlyPawn(g, c, FirstPawn(g, c, 0).value);
    }
    forall q | InBounds(q) ensures At(g', q) == if q == b then At(g, a) else if q == a then Empty else At(g, q) {
      SwapCells(g, a, b, q);
    }
    assert PawnOnlyAt(g', c, b);
    assert PawnOnlyAt(g', o, po);
    ScansFindOnlyPawn(g', c, b);
    ScansFindOnlyPawn(g', o, po);
    assert c == Black || c == White;
  }

  /** The state after the pawn on a moves to b. */
  function MovePieceState(s: BoardState, a: Pos, b: Pos): BoardState
    requires IsGrid(s.grid) && InBounds(a) && InBounds(b)
  {
    s.(grid := Swap(s.grid, a, b))
  }

  // ---------------------------------------------------------------------
  // The winner.

  /** winner: WHITE if a white pawn stands on row 0, checked first; else
      BLACK if a black pawn stands on row ROWS-1; else None. */
  function WinnerOf(s: BoardState): Option<Color>
    requires IsGrid(s.grid)
  {
    var top, bottom := s.grid[0], s.grid[ROWS - 1];
    if exists c :: 0 <= c < COLS && top[c] == Pawn(White) then Some(White)
    else if exists c :: 0 <= c < COLS && bottom[c] == Pawn(Black) then Some(Black)
    else None
  }

  /** With the pawns placed, a side has won exactly when its pawn stands on its goal row. */
  lemma WinnerIsGoalRow(s: BoardState)
    requires PawnsPlaced(s.grid)
    ensures WinnerOf(s) == Some(White) <==> PawnPos(s, White).0 == 0
    ensures WinnerOf(s) == Some(Black) <==> PawnPos(s, White).0 != 0 && PawnPos(s, Black).0 == ROWS - 1
  {
    var pw, pb := PawnPos(s, White), PawnPos(s, Black);
    var top, bottom := s.grid[0], s.grid[ROWS - 1];
    if exists c :: 0 <= c < COLS && top[c] == Pawn(White) {
      var c :| 0 <= c < COLS && top[c] == Pawn(White);
      assert At(s.grid, (0, c)) == Pawn(White);
    }
    if exists c :: 0 <= c < COLS && bottom[c] == Pawn(Black) {
      var c :| 0 <= c < COLS && bottom[c] == Pawn(Black);
      assert At(s.grid, (ROWS - 1, c)) == Pawn(Black);
    }
    assert s.grid[pw.0][pw.1] == Pawn(White);
    assert s.grid[pb.0][pb.1] == Pawn(Black);
  }

  // ---------------------------------------------------------------------
  // Evaluation features.

  /** The features evaluate combines, from one side's point of view. */
  datatype Features = Features(pathDiff: real, wallBonus: int, blockade: real, forward: int)

  /** The row a colour's pawn races to. */
  function GoalRow(c: Color): int {
    if c == Black then ROWS - 1 else 0
  }

  /** Node count of the shortest path of a colour's pawn to its goal row; 0 without one. */
  ghost function PathLength(s: BoardState, c: Color): nat
    requires IsGrid(s.grid) && FirstPawn(s.grid, c, 0).Some?
  {
    ShortestNodes(s.h, s.v, PawnPos(s, c), GoalRow(c))
  }

  /** An anchor within one row and one column of a cell. */
  predicate Near(a: Anchor, p: Pos) {
    -1 <= a.0 - p.0 <= 1 && -1 <= a.1 - p.1 <= 1
  }

  /** The anchors of A within one row and one column of p. */
  function NearIn(A: set<Anchor>, p: Pos): set<Anchor> {
    set a | a in A && Near(a, p)
  }

  /** The placed anchors around the opponent's pawn; one anchor in both sets counts once. */
  function NearAnchors(s: BoardState, p: Pos): set<Anchor> {
    NearIn(s.h + s.v, p)
  }

  /** Looking at one more anchor adds it to the count exactly when it is near. */
  lemma NearInAdd(A: set<Anchor>, a: Anchor, p: Pos)
    requires a !in A
    ensures |NearIn(A + {a}, p)| == |NearIn(A, p)| + if Near(a, p) then 1 else 0
  {
    if Near(a, p) {
      assert NearIn(A + {a}, p) == NearIn(A, p) + {a};
    } else {
      assert NearIn(A + {a}, p) == NearIn(A, p);
    }
  }

  /** How far a colour's pawn has come: black from row 0, white from row ROWS. */
  function Progress(s: BoardState, c: Color): int
    requires IsGrid(s.grid) && FirstPawn(s.grid, c, 0).Some?
  {
    if c == Black then PawnPos(s, c).0 else ROWS - PawnPos(s, c).0
  }

  /** The features of s for side c. */
  ghost function FeaturesOf(s: BoardState, c: Color): Features
    requires PawnsPlaced(s.grid)
  {
    var o := Opposite(c);
    Features(
      6.0 / 5.0 * (PathLength(s, o) as real) - 9.0 / 5.0 * (PathLength(s, c) as real),
      if c == White then s.whiteWalls - s.blackWalls else s.blackWalls - s.whiteWalls,
      5.0 / 2.0 * (|NearAnchors(s, PawnPos(s, o))| as real),
      Progress(s, c) - Progress(s, o))
  }

  /** The wall and forward terms are antisymmetric in the side, and the
      path term swaps its weights. */
  lemma FeaturesAntisymmetric(s: BoardState)
    requires PawnsPlaced(s.grid)
    ensures FeaturesOf(s, White).wallBonus == -FeaturesOf(s, Black).wallBonus
    ensures FeaturesOf(s, White).forward == -FeaturesOf(s, Black).forward
    ensures FeaturesOf(s, White).pathDiff + FeaturesOf(s, Black).pathDiff ==
            -3.0 / 5.0 * ((PathLength(s, White) + PathLength(s, Black)) as real)
  {}

  /** The weighted sum of the features. */
  function Combine(w: Weights, f: Features): real {
    w.path * f.pathDiff + w.wall * (f.wallBonus as real) + w.block * f.blockade + w.forward * (f.forward as real)
  }

  /** The weights of board.py's evaluate. */
  const StandardWeights: Weights := Weights(935.0 / 100.0, 7.0, 5.0, 3.0)

  /** Board.evaluate: 10000 for a won position, -10000 for a lost one, else
      9.35 path + 7 walls + 5 blockade + 3 forward. */
  ghost function StandardScore(s: BoardState, c: Color): real
    requires PawnsPlaced(s.grid)
  {
    if WinnerOf(s) == Some(c) then 10000.0
    else if WinnerOf(s) == Some(Opposite(c)) then -10000.0
    else Combine(StandardWeights, FeaturesOf(s, c))
  }

  // ---------------------------------------------------------------------
  // Consequences for play.

  /** A cell one or two open edges away from a cell that reaches the row reaches it too. */
  lemma NearbyCellReaches(h: set<Anchor>, v: set<Anchor>, p: Pos, q: Pos, row: int, grid: Grid)
    requires IsGrid(grid) && ReachesRow(h, v, p, row)
    requires OneOrTwoSteps(h, v, grid, p, q)
    ensures ReachesRow(h, v, q, row)
  {
    if Adjacent(h, v, p, q) {
      AdjacentSymmetric(h, v, p, q);
      ReachesThroughNeighbour(h, v, q, p, row);
    } else {
      var n :| Adjacent(h, v, p, n) && Adjacent(h, v, n, q) && At(grid, n) != Empty;
      AdjacentSymmetric(h, v, p, n);
      AdjacentSymmetric(h, v, n, q);
      ReachesThroughNeighbour(h, v, n, p, row);
      ReachesThroughNeighbour(h, v, q, n, row);
    }
  }

  /** GoalsReachable read from one side: its own pawn and the opponent's both reach their rows. */
  lemma GoalsReachableFor(s: BoardState, c: Color)
    requires PawnsPlaced(s.grid)
    ensures GoalsReachable(s) <==>
            ReachesRow(s.h, s.v, PawnPos(s, c), GoalRow(c)) &&
            ReachesRow(s.h, s.v, PawnPos(s, Opposite(c)), GoalRow(Opposite(c)))
  {
    assert c == Black || c == White;
  }

  /** After a pawn moves onto an empty cell the mover stands there and the other pawn is where it was. */
  lemma MovedPawns(s: BoardState, c: Color, q: Pos)
    requires PawnsPlaced(s.grid) && InBounds(q) && At(s.grid, q) == Empty
    ensures PawnsPlaced(MovePieceState(s, PawnPos(s, c), q).grid)
    ensures PawnPos(MovePieceState(s, PawnPos(s, c), q), c) == q
    ensures PawnPos(MovePieceState(s, PawnPos(s, c), q), Opposite(c)) == PawnPos(s, Opposite(c))
  {
    var p := PawnPos(s, c);
    SwapKeepsPawns(s.grid, p, q);
    assert At(s.grid, p).color == c;
  }

  /** Moving a pawn onto an empty cell one or two open edges away keeps both goals reachable. */
  lemma ShortMoveKeepsGoalsReachable(s: BoardState, c: Color, q: Pos)
    requires PawnsPlaced(s.grid) && GoalsReachable(s) && InBounds(q) && At(s.grid, q) == Empty
    requires OneOrTwoSteps(s.h, s.v, s.grid, PawnPos(s, c), q)
    ensures PawnsPlaced(MovePieceState(s, PawnPos(s, c), q).grid)
    ensures GoalsReachable(MovePieceState(s, PawnPos(s, c), q))
  {
    var p := PawnPos(s, c);
    var s' := MovePieceState(s, p, q);
    MovedPawns(s, c, q);
    GoalsReachableFor(s, c);
    GoalsReachableFor(s', c);
    NearbyCellReaches(s.h, s.v, p, q, GoalRow(c), s.grid);
  }

  /** A pawn move keeps both goals reachable: the mover arrives one or two
      open edges from where it stood, and pawns never block the search. */
  lemma MoveKeepsGoalsReachable(s: BoardState, c: Color, q: Pos)
    requires PawnsPlaced(s.grid) && GoalsReachable(s)
    requires q in ValidMoves(s, PawnPos(s, c))
    ensures PawnsPlaced(MovePieceState(s, PawnPos(s, c), q).grid)
    ensures GoalsReachable(MovePieceState(s, PawnPos(s, c), q))
  {
    var p := PawnPos(s, c);
    ValidMovesAreEmptyCells(s, p, q);
    ValidMoveIsOneOrTwoSteps(s, p, q);
    ShortMoveKeepsGoalsReachable(s, c, q);
  }

  /** The walls of a freshly built board, as a set. */
  function WallUniverse(): set<Wall> {
    (set r, c | 0 <= r < ROWS - 1 && 0 <= c < COLS - 1 :: Wall(r, c, Horizontal)) +
    (set r, c | 1 <= r < ROWS && 1 <= c < COLS :: Wall(r, c, Vertical))
  }

  lemma WallUniverseMembers(w: Wall)
    ensures w in WallUniverse() <==> InUniverse(w)
  {
    if InUniverse(w) {
      var (r, c) := (w.row, w.col);
      if w.orientation == Horizontal {
        assert Wall(r, c, Horizontal) == w;
      } else {
        assert Wall(r, c, Vertical) == w;
      }
    }
  }

  /** The n-th wall precompute_valid_walls adds. */
  function WallAt(i: int): Wall
    requires 0 <= i < 2 * (ROWS - 1) * (COLS - 1)
  {
    if i < (ROWS - 1) * (COLS - 1) then Wall(i / (COLS - 1), i % (COLS - 1), Horizontal)
    else
      var j := i - (ROWS - 1) * (COLS - 1);
      Wall(j / (COLS - 1) + 1, j % (COLS - 1) + 1, Vertical)
  }

  /** The order the legal walls are visited in. */
  function WallOrder(): (ws: seq<Wall>)
    ensures |ws| == 2 * (ROWS - 1) * (COLS - 1)
    ensures forall i :: 0 <= i < |ws| ==> ws[i] == WallAt(i)
  {
    seq(2 * (ROWS - 1) * (COLS - 1), i requires 0 <= i < 2 * (ROWS - 1) * (COLS - 1) => WallAt(i))
  }

  /** The order lists exactly the walls of the universe. */
  lemma WallOrderIsUniverse(w: Wall)
    ensures w in WallOrder() <==> InUniverse(w)
  {
    if InUniverse(w) {
      var i := if w.orientation == Horizontal then w.row * (COLS - 1) + w.col
               else (ROWS - 1) * (COLS - 1) + (w.row - 1) * (COLS - 1) + (w.col - 1);
      assert WallOrder()[i] == w;
    }
    if w in WallOrder() {
      var i :| 0 <= i < |WallOrder()| && WallOrder()[i] == w;
      assert WallAt(i) == w;
    }
  }

  /** The universe holds (ROWS-1)^2 + (COLS-1)^2 walls. */
  lemma UniverseSize()
    ensures |WallUniverse()| == |WallOrder()|
  {
    var m := set i | 0 <= i < |WallOrder()| :: WallOrder()[i];
    forall w ensures w in m <==> w in WallUniverse() {
      WallOrderIsUniverse(w);
      WallUniverseMembers(w);
    }
    assert m == WallUniverse();
    WallOrderDistinct();
    DistinctSeqCard(WallOrder());
  }

  lemma WallOrderDistinct()
    ensures forall i, j :: 0 <= i < j < |WallOrder()| ==> WallOrder()[i] != WallOrder()[j]
  {
    forall i, j | 0 <= i < j < |WallOrder()| ensures WallOrder()[i] != WallOrder()[j] {
      assert WallAt(i) != WallAt(j);
    }
  }

  /** A sequence without repetitions has as many members as elements. */
  lemma {:induction false} DistinctSeqCard(xs: seq<Wall>)
    requires forall i, j :: 0 <= i < j < |xs| ==> xs[i] != xs[j]
    ensures |set i | 0 <= i < |xs| :: xs[i]| == |xs|
    decreases |xs|
  {
    if xs != [] {
      var ys := xs[..|xs| - 1];
      DistinctSeqCard(ys);
      var last := xs[|xs| - 1];
      assert (set i | 0 <= i < |xs| :: xs[i]) == (set i | 0 <= i < |ys| :: ys[i]) + {last};
      assert last !in (set i | 0 <= i < |ys| :: ys[i]);
    }
  }

  /** Board(): the opening grid, no walls placed, every wall of the universe
      legal, ten walls each. */
  function InitialState(e: Evaluator): BoardState {
    BoardState(InitialGrid(), {}, {}, WallUniverse(), START_WALLS, START_WALLS, e)
  }

  /** The opening grid holds black's pawn on (0, COLS/2), white's on
      (ROWS-1, COLS/2), and nothing else. */
  lemma InitialGridCells()
    ensures IsGrid(InitialGrid())
    ensures forall q :: InBounds(q) ==>
              At(InitialGrid(), q) == if q == (0, COLS / 2) then Pawn(Black) else if q == (ROWS - 1, COLS / 2) then Pawn(White) else Empty
  {}

  /** The opening board: black on (0, COLS/2), white on (ROWS-1, COLS/2),
      nothing else on the grid, no winner yet, the invariant holds and both
      pawns have a path. */
  lemma InitialStateFacts(e: Evaluator)
    ensures PawnsPlaced(InitialGrid())
    ensures PawnPos(InitialState(e), Black) == (0, COLS / 2)
    ensures PawnPos(InitialState(e), White) == (ROWS - 1, COLS / 2)
    ensures Valid(InitialState(e)) && GoalsReachable(InitialState(e))
    ensures WinnerOf(InitialState(e)) == None
  {
    var g := InitialGrid();
    InitialGridCells();
    assert PawnOnlyAt(g, Black, (0, COLS / 2));
    assert PawnOnlyAt(g, White, (ROWS - 1, COLS / 2));
    ScansFindOnlyPawn(g, Black, (0, COLS / 2));
    ScansFindOnlyPawn(g, White, (ROWS - 1, COLS / 2));
    forall w | w in WallUniverse() ensures InUniverse(w) {
      WallUniverseMembers(w);
    }
    EmptyBoardPathExists((0, COLS / 2), (ROWS - 1, COLS / 2));
    WinnerIsGoalRow(InitialState(e));
  }

  /** The landings of black's pawn in the opening position, direction by direction. */
  lemma BlackOpeningLandings(e: Evaluator)
    ensures IsGrid(InitialGrid())
    ensures Landings(InitialState(e), (0, 4), Directions[0]) == {(0, 5)}
    ensures Landings(InitialState(e), (0, 4), Directions[1]) == {(0, 3)}
    ensures Landings(InitialState(e), (0, 4), Directions[2]) == {(1, 4)}
    ensures Landings(InitialState(e), (0, 4), Directions[3]) == {}
  {
    InitialGridCells();
    var g := InitialGrid();
    assert At(g, (0, 5)) == Empty && At(g, (0, 3)) == Empty && At(g, (1, 4)) == Empty;
  }

  /** The landings of white's pawn in the opening position, direction by direction. */
  lemma WhiteOpeningLandings(e: Evaluator)
    ensures IsGrid(InitialGrid())
    ensures Landings(InitialState(e), (8, 4), Directions[0]) == {(8, 5)}
    ensures Landings(InitialState(e), (8, 4), Directions[1]) == {(8, 3)}
    ensures Landings(InitialState(e), (8, 4), Directions[2]) == {}
    ensures Landings(InitialState(e), (8, 4), Directions[3]) == {(7, 4)}
  {
    InitialGridCells();
    var g := InitialGrid();
    assert At(g, (8, 5)) == Empty && At(g, (8, 3)) == Empty && At(g, (7, 4)) == Empty;
  }

  /** From the opening position black may step down or sideways, and so may white upwards. */
  lemma OpeningMoves(e: Evaluator)
    ensures IsGrid(InitialGrid())
    ensures ValidMoves(InitialState(e), (0, 4)) == {(1, 4), (0, 3), (0, 5)}
    ensures ValidMoves(InitialState(e), (8, 4)) == {(7, 4), (8, 3), (8, 5)}
  {
    var s := InitialState(e);
    BlackOpeningLandings(e);
    WhiteOpeningLandings(e);
    ValidMovesByDirection(s, (0, 4));
    ValidMovesByDirection(s, (8, 4));
  }

  /** White on (8,4) with black beside it on (8,5): a fresh board after
      the two pawns are set there by hand. */
  function FaceOffState(): BoardState {
    var g := SetCell(SetCell(InitialGrid(), (0, 4), Empty), (8, 5), Pawn(Black));
    BoardState(g, {}, {}, WallUniverse(), START_WALLS, START_WALLS, Standard)
  }

  /** White's landings towards the black pawn on (8,5): the jump to (8,6)
      on the open board, the slides beside (8,5) once the vertical wall
      (8,6) blocks the jump, which do not include (8,6). */
  lemma FaceOffLandings()
    ensures IsGrid(FaceOffState().grid)
    ensures (8, 6) in Landings(FaceOffState(), (8, 4), Directions[0])
    ensures var s' := PlaceWallState(FaceOffState(), Wall(8, 6, Vertical));
            (7, 5) in Landings(s', (8, 4), Directions[0]) && (8, 6) !in Landings(s', (8, 4), Directions[0])
  {
    InitialGridCells();
    var s := FaceOffState();
    var s' := PlaceWallState(s, Wall(8, 6, Vertical));
    assert At(s.grid, (8, 5)) == Pawn(Black) && At(s.grid, (8, 6)) == Empty && At(s.grid, (7, 5)) == Empty;
    assert At(s'.grid, (8, 6)) == Empty && At(s'.grid, (8, 4)) == Pawn(White);
    assert Landings(s', (8, 4), Directions[0]) == Sideways(s', (8, 5));
    assert Shift((8, 5), Directions[3]) == (7, 5);
    assert (7, 5) in Sideways(s', (8, 5));
    assert (8, 6) !in Sideways(s', (8, 5));
  }

  /** The other directions never reach (8,6) from (8,4). */
  lemma FaceOffOtherLandings()
    ensures IsGrid(FaceOffState().grid)
    ensures forall i :: 1 <= i < 4 ==>
              (8, 6) !in Landings(PlaceWallState(FaceOffState(), Wall(8, 6, Vertical)), (8, 4), Directions[i])
  {
    InitialGridCells();
    var s' := PlaceWallState(FaceOffState(), Wall(8, 6, Vertical));
    assert At(s'.grid, (8, 6)) == Empty && At(s'.grid, (8, 4)) == Pawn(White);
  }

  /** Over an adjacent pawn white jumps straight to (8,6); once the vertical
      wall (8,6) closes the far side, the jump is gone and white may slide
      to (7,5) beside the black pawn instead. */
  lemma JumpAndSidewaysMoves()
    ensures IsGrid(FaceOffState().grid)
    ensures (8, 6) in ValidMoves(FaceOffState(), (8, 4))
    ensures (8, 6) !in ValidMoves(PlaceWallState(FaceOffState(), Wall(8, 6, Vertical)), (8, 4))
    ensures (7, 5) in ValidMoves(PlaceWallState(FaceOffState(), Wall(8, 6, Vertical)), (8, 4))
  {
    var s := FaceOffState();
    var s' := PlaceWallState(s, Wall(8, 6, Vertical));
    FaceOffLandings();
    FaceOffOtherLandings();
    ValidMovesByDirection(s, (8, 4));
    ValidMovesByDirection(s', (8, 4));
  }
}

/** The Board object: the grid and wall sets it updates in place, and its
    operations, each proved against the rules of BoardRules. */
module Boards {
  import opened Constants
  import opened Options
  import opened ExtendedReals
  import opened Walls
  import opened Pieces
  import opened Pathfinding
  import opened BoardRules
  import opened Training

  /** The sideways cells beside n in the first j directions of Directions. */
  function SidewaysUpTo(s: BoardState, n: Pos, j: nat): set<Pos>
    requires IsGrid(s.grid) && j <= |Directions|
  {
    if j == 0 then {}
    else SidewaysUpTo(s, n, j - 1) + if OpenTo(s, n, Shift(n, Directions[j - 1])) then {Shift(n, Directions[j - 1])} else {}
  }

  lemma {:induction false} SidewaysUpToMembers(s: BoardState, n: Pos, j: nat, q: Pos)
    requires IsGrid(s.grid) && j <= |Directions|
    ensures q in SidewaysUpTo(s, n, j) <==>
            exists i :: 0 <= i < j && OpenTo(s, n, Shift(n, Directions[i])) && q == Shift(n, Directions[i])
  {
    if j > 0 {
      SidewaysUpToMembers(s, n, j - 1, q);
    }
  }

  /** After all four directions the inner loop has collected Sideways. */
  lemma SidewaysUpToAll(s: BoardState, n: Pos)
    requires IsGrid(s.grid)
    ensures SidewaysUpTo(s, n, |Directions|) == Sideways(s, n)
  {
    forall q ensures q in SidewaysUpTo(s, n, |Directions|) <==> q in Sideways(s, n) {
      SidewaysUpToMembers(s, n, |Directions|, q);
      if q in Sideways(s, n) {
        var e :| e in Directions && OpenTo(s, n, Shift(n, e)) && q == Shift(n, e);
        var i :| 0 <= i < |Directions| && Directions[i] == e;
      }
    }
  }

  class Board {
    var grid: Grid
    var hWalls: set<Anchor>
    var vWalls: set<Anchor>
    var validWalls: set<Wall>
    var blackWalls: int
    var whiteWalls: int
    /** Which evaluate the object has: Board's, or TrainingBoard's with its weights. */
    var evaluator: Evaluator

    function State(): BoardState
      reads this
    {
      BoardState(grid, hWalls, vWalls, validWalls, blackWalls, whiteWalls, evaluator)
    }

    ghost predicate Valid()
      reads this
    {
      BoardRules.Valid(State())
    }

    /** Board(): the opening position with every wall of the universe legal. */
    constructor ()
      ensures State() == InitialState(Standard)
      ensures |validWalls| == (ROWS - 1) * (ROWS - 1) + (COLS - 1) * (COLS - 1)
    {
      grid, hWalls, vWalls, validWalls := [], {}, {}, {};
      blackWalls, whiteWalls := START_WALLS, START_WALLS;
      evaluator := Standard;
      new;
      CreateBoard();
      PrecomputeValidWalls();
    }

    /** TrainingBoard(weights): a Board that evaluates with the given per-side weights. */
    constructor TrainingBoard(white: Weights, black: Weights)
      ensures State() == InitialState(Trained(white, black))
      ensures |validWalls| == (ROWS - 1) * (ROWS - 1) + (COLS - 1) * (COLS - 1)
    {
      grid, hWalls, vWalls, validWalls := [], {}, {}, {};
      blackWalls, whiteWalls := START_WALLS, START_WALLS;
      evaluator := Trained(white, black);
      new;
      CreateBoard();
      PrecomputeValidWalls();
    }

    /** create_board: ROWS rows of COLS empty cells, then the two pawns. */
    method CreateBoard()
      requires grid == []
      modifies this
      ensures grid == InitialGrid()
      ensures hWalls == old(hWalls) && vWalls == old(vWalls) && validWalls == old(validWalls)
      ensures blackWalls == old(blackWalls) && whiteWalls == old(whiteWalls) && evaluator == old(evaluator)
    {
      var emptyRow := seq(COLS, _ => Empty);
      var rows: Grid := grid;
      for row := 0 to ROWS
        invariant rows == seq(row, _ => emptyRow)
      {
        rows := rows + [[]];
        for col := 0 to COLS
          invariant |rows| == row + 1 && rows[..row] == seq(row, _ => emptyRow)
          invariant rows[row] == seq(col, _ => Empty)
        {
          rows := rows[row := rows[row] + [Empty]];
        }
        assert rows == seq(row + 1, _ => emptyRow);
      }
      rows := rows[0 := rows[0][COLS / 2 := Pawn(Black)]];
      rows := rows[ROWS - 1 := rows[ROWS - 1][COLS / 2 := Pawn(White)]];
      grid := rows;
    }

    /** precompute_valid_walls: adds every horizontal wall on rows 0..ROWS-2,
        columns 0..COLS-2, then every vertical wall on rows 1..ROWS-1,
        columns 1..COLS-1. */
    method PrecomputeValidWalls()
      modifies this
      ensures forall w :: w in validWalls <==> w in old(validWalls) || InUniverse(w)
      ensures old(validWalls) == {} ==> |validWalls| == (ROWS - 1) * (ROWS - 1) + (COLS - 1) * (COLS - 1)
      ensures grid == old(grid) && hWalls == old(hWalls) && vWalls == old(vWalls)
      ensures blackWalls == old(blackWalls) && whiteWalls == old(whiteWalls) && evaluator == old(evaluator)
    {
      var walls := validWalls;
      for row := 0 to ROWS - 1
        invariant forall w :: w in walls <==> (w in validWalls ||
          (w.orientation == Horizontal && 0 <= w.row < row && 0 <= w.col < COLS - 1))
      {
        for col := 0 to COLS - 1
          invariant forall w :: w in walls <==> (w in validWalls ||
            (w.orientation == Horizontal && 0 <= w.col < COLS - 1 && (0 <= w.row < row || (w.row == row && w.col < col))))
        {
          walls := walls + {Wall(row, col, Horizontal)};
        }
      }
      for row := 1 to ROWS
        invariant forall w :: w in walls <==> (w in validWalls ||
          (w.orientation == Horizontal && 0 <= w.row < ROWS - 1 && 0 <= w.col < COLS - 1) ||
          (w.orientation == Vertical && 1 <= w.row < row && 1 <= w.col < COLS))
      {
        for col := 1 to COLS
          invariant forall w :: w in walls <==> (w in validWalls ||
            (w.orientation == Horizontal && 0 <= w.row < ROWS - 1 && 0 <= w.col < COLS - 1) ||
            (w.orientation == Vertical && 1 <= w.col < COLS && (1 <= w.row < row || (w.row == row && w.col < col))))
        {
          walls := walls + {Wall(row, col, Vertical)};
        }
      }
      if validWalls == {} {
        forall w ensures w in walls <==> w in WallUniverse() {
          WallUniverseMembers(w);
        }
        assert walls == WallUniverse();
        UniverseSize();
      }
      validWalls := walls;
    }
    /** move_piece: the pawn's cell and the target cell exchange contents. */
    method MovePiece(from: Pos, row: int, col: int)
      requires IsGrid(grid) && InBounds(from) && InBounds((row, col))
      modifies this
      ensures State() == MovePieceState(old(State()), from, (row, col))
    {
      var moving, target := grid[from.0][from.1], grid[row][col];
      grid := grid[from.0 := grid[from.0][from.1 := target]];
      grid := grid[row := grid[row][col := moving]];
    }

    /** place_wall: records the anchor in the set of w's orientation, then prunes the legal set. */
    method PlaceWall(w: Wall)
      requires w in validWalls
      modifies this
      ensures State() == PlaceWallState(old(State()), w)
    {
      if w.orientation == Horizontal {
        hWalls := hWalls + {(w.row, w.col)};
      } else {
        vWalls := vWalls + {(w.row, w.col)};
      }
      RemoveInvalidWalls(w);
    }

    /** remove_invalid_walls: w leaves the legal set (it must be there), and
        so do its two same-orientation neighbours and its crossing wall. */
    method RemoveInvalidWalls(w: Wall)
      requires w in validWalls
      modifies this
      ensures State() == old(State()).(valid := old(validWalls) - ConflictSet(w))
    {
      validWalls := validWalls - {w};
      if w.orientation == Horizontal {
        validWalls := validWalls - {Wall(w.row, w.col + 1, Horizontal)};
        validWalls := validWalls - {Wall(w.row, w.col - 1, Horizontal)};
        validWalls := validWalls - {Wall(w.row + 1, w.col + 1, Vertical)};
      } else {
        validWalls := validWalls - {Wall(w.row + 1, w.col, Vertical)};
        validWalls := validWalls - {Wall(w.row - 1, w.col, Vertical)};
        validWalls := validWalls - {Wall(w.row - 1, w.col - 1, Horizontal)};
      }
    }

    /** get_piece: the content of a cell. */
    method GetPiece(row: int, col: int) returns (c: Cell)
      requires IsGrid(grid) && InBounds((row, col))
      ensures c == At(grid, (row, col))
    {
      c := grid[row][col];
    }

    /** get_valid_walls: the legal set itself. */
    method GetValidWalls() returns (ws: set<Wall>)
      ensures ws == validWalls
    {
      ws := validWalls;
    }

    /** get_piece_by_color: the first cell in row-major order holding the
        colour's pawn, or None when there is none. */
    method GetPieceByColor(color: Color) returns (p: Option<Pos>)
      requires IsGrid(grid)
      ensures p == FirstPawn(grid, color, 0)
      ensures p.Some? ==> InBounds(p.value) && At(grid, p.value) == Pawn(color)
    {
      for row := 0 to ROWS
        invariant FirstPawn(grid, color, 0) == FirstPawn(grid, color, row * COLS)
      {
        for col := 0 to COLS
          invariant FirstPawn(grid, color, 0) == FirstPawn(grid, color, row * COLS + col)
        {
          CellOfIndex((row, col));
          if grid[row][col] == Pawn(color) {
            return Some((row, col));
          }
        }
      }
      return None;
    }

    /** winner: WHITE on row 0 first, then BLACK on row ROWS-1, else None. */
    method Winner() returns (w: Option<Color>)
      requires IsGrid(grid)
      ensures w == WinnerOf(State())
    {
      var top, bottom := grid[0], grid[ROWS - 1];
      for col := 0 to COLS
        invariant forall c :: 0 <= c < col ==> top[c] != Pawn(White)
      {
        if top[col] == Pawn(White) {
          return Some(White);
        }
      }
      for col := 0 to COLS
        invariant forall c :: 0 <= c < col ==> bottom[c] != Pawn(Black)
      {
        if bottom[col] == Pawn(Black) {
          return Some(Black);
        }
      }
      return None;
    }

    /** is_valid_wall: false for a wall no longer legal; otherwise adds its
        anchor, asks path_exists, and takes the anchor out again. */
    method IsValidWall(w: Wall) returns (b: bool)
      requires PawnsPlaced(grid)
      modifies this
      ensures b == LegalWall(old(State()), w)
      ensures State() == if w in old(validWalls) then WithoutAnchor(old(State()), w) else old(State())
      ensures old(WallsConsistent(State())) ==> State() == old(State())
    {
      if w in validWalls && WallsConsistent(State()) {
        SpeculativeAddRestores(State(), w);
      }
      if w !in validWalls {
        return false;
      }
      ScansAgree(grid);
      if w.orientation == Horizontal {
        hWalls := hWalls + {(w.row, w.col)};
        var ok := PathExists(grid, hWalls, vWalls);
        if !ok {
          hWalls := hWalls - {(w.row, w.col)};
          return false;
        }
        hWalls := hWalls - {(w.row, w.col)};
      } else {
        vWalls := vWalls + {(w.row, w.col)};
        var ok := PathExists(grid, hWalls, vWalls);
        if !ok {
          vWalls := vWalls - {(w.row, w.col)};
          return false;
        }
        vWalls := vWalls - {(w.row, w.col)};
      }
      return true;
    }

    /** get_valid_moves for the pawn on p: the landings of the four
        directions in turn. */
    method GetValidMoves(p: Pos) returns (moves: set<Pos>)
      requires IsGrid(grid)
      ensures moves == ValidMoves(State(), p)
    {
      moves := {};
      for i := 0 to |Directions|
        invariant moves == LandingsUpTo(State(), p, i)
      {
        var landings := DirectionMoves(p, Directions[i]);
        moves := moves + landings;
      }
    }

    /** One pass of get_valid_moves's outer loop: a step onto an empty
        neighbour, else the straight jump, else the inner loop over the
        cells beside the neighbour. */
    method DirectionMoves(p: Pos, d: Pos) returns (moves: set<Pos>)
      requires IsGrid(grid)
      ensures moves == Landings(State(), p, d)
    {
      var (dx, dy) := d;
      var n := (p.0 + dx, p.1 + dy);
      moves := {};
      if 0 <= n.0 < ROWS && 0 <= n.1 < COLS && !IsWallBetween(hWalls, vWalls, p.0, p.1, n.0, n.1) {
        if grid[n.0][n.1] == Empty {
          moves := {n};
        } else {
          var jump := (n.0 + dx, n.1 + dy);
          if 0 <= jump.0 < ROWS && 0 <= jump.1 < COLS &&
             !IsWallBetween(hWalls, vWalls, n.0, n.1, jump.0, jump.1) &&
             grid[jump.0][jump.1] == Empty {
            moves := {jump};
          } else {
            for j := 0 to |Directions|
              invariant moves == SidewaysUpTo(State(), n, j)
            {
              var (ex, ey) := Directions[j];
              var side := (n.0 + ex, n.1 + ey);
              if 0 <= side.0 < ROWS && 0 <= side.1 < COLS &&
                 !IsWallBetween(hWalls, vWalls, n.0, n.1, side.0, side.1) &&
                 grid[side.0][side.1] == Empty {
                moves := moves + {side};
              }
            }
            SidewaysUpToAll(State(), n);
          }
        }
      }
    }

    /** The blockade loop of evaluate: 2.5 for each placed anchor, horizontal
        or vertical, within one row and one column of the opponent's pawn. */
    method Blockade(opponent: Pos) returns (blockade: real)
      ensures blockade == 5.0 / 2.0 * (|NearAnchors(State(), opponent)| as real)
    {
      blockade := 0.0;
      var todo := hWalls + vWalls;
      ghost var done: set<Anchor> := {};
      while todo != {}
        invariant todo + done == hWalls + vWalls && todo !! done
        invariant blockade == 5.0 / 2.0 * (|NearIn(done, opponent)| as real)
        decreases |todo|
      {
        var a :| a in todo;
        NearInAdd(done, a, opponent);
        if -1 <= a.0 - opponent.0 <= 1 && -1 <= a.1 - opponent.1 <= 1 {
          blockade := blockade + 5.0 / 2.0;
        }
        todo, done := todo - {a}, done + {a};
      }
    }

    /** evaluate, for either evaluator: the winner's and loser's scores,
        else the weighted features, with the blockade counted by a loop
        over the placed anchors. */
    method Evaluate(color: Color) returns (score: ExtReal)
      requires PawnsPlaced(grid)
      ensures score == Evaluation(State(), color)
    {
      ghost var s := State();
      var whitePiece := GetPieceByColor(White);
      var blackPiece := GetPieceByColor(Black);
      var whitePos, blackPos := whitePiece.value, blackPiece.value;
      var opponent := if color == Black then whitePos else blackPos;
      var whitePath := ShortestPathNodes(hWalls, vWalls, whitePos, GoalRow(White));
      var blackPath := ShortestPathNodes(hWalls, vWalls, blackPos, GoalRow(Black));
      var winner := Winner();

      var pathDiff := if color == Black then 6.0 / 5.0 * (whitePath as real) - 9.0 / 5.0 * (blackPath as real)
                      else 6.0 / 5.0 * (blackPath as real) - 9.0 / 5.0 * (whitePath as real);
      var wallBonus := if color == White then whiteWalls - blackWalls else blackWalls - whiteWalls;

      var blockade := Blockade(opponent);

      var blackProgress, whiteProgress := blackPos.0, ROWS - whitePos.0;
      var forward := if color == White then whiteProgress - blackProgress else blackProgress - whiteProgress;
      var f := Features(pathDiff, wallBonus, blockade, forward);
      assert f == FeaturesOf(s, color);

      match evaluator
      case Standard =>
        if winner == Some(color) {
          score := Fin(10000.0);
        } else if winner == Some(Opposite(color)) {
          score := Fin(-10000.0);
        } else {
          score := Fin(Combine(StandardWeights, f));
        }
      case Trained(white, black) =>
        var weights := WeightsFor(white, black, color);
        if winner == Some(color) {
          score := PosInf;
        } else if winner == Some(Opposite(color)) {
          score := NegInf;
        } else {
          score := Fin(Combine(weights, f));
        }
    }
  }
}