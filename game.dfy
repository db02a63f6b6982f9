/** The turn and selection state machine of a game: a click selects a pawn
    of the side to move or moves the selected one, a wall is placed when
    it is legal and the side has walls left, and every successful action
    hands the turn to the other side. */
module Games {
  import opened Constants
  import opened Options
  import opened Walls
  import opened Pieces
  import opened BoardRules
  import opened Boards
  import opened Search

  /** The fields of a Game object, with its board as the state it holds.
      The selected piece is recorded by the cell it stands on. */
  datatype GameState = GameState(board: BoardState, turn: Color, selected: Option<Pos>, validMoves: set<Pos>)

  /** _init: a fresh Board, WHITE to move, nothing selected, no cached moves. */
  function InitialGame(): GameState {
    GameState(InitialState(Standard), White, None, {})
  }

  /** change_turn: the cached moves are dropped and the other side moves. */
  function ChangeTurnState(g: GameState): (g': GameState)
    ensures g'.turn == Opposite(g.turn) && g'.validMoves == {}
    ensures g'.board == g.board && g'.selected == g.selected
  {
    g.(turn := Opposite(g.turn), validMoves := {})
  }

  /** player_has_walls: the side's count is positive. */
  predicate HasWalls(b: BoardState, c: Color) {
    if c == Black then b.blackWalls > 0 else b.whiteWalls > 0
  }

  /** A click with nothing selected: a pawn of the side to move is
      selected and its moves cached; any other click changes nothing. */
  function PickState(g: GameState, row: int, col: int): (bool, GameState)
    requires IsGrid(g.board.grid) && InBounds((row, col))
  {
    if At(g.board.grid, (row, col)) == Pawn(g.turn) then
      (true, g.(selected := Some((row, col)), validMoves := ValidMoves(g.board, (row, col))))
    else (false, g)
  }

  /** _move_piece: with a piece selected, an empty target among the cached
      moves receives the piece, which stays selected, and the turn passes. */
  function MoveState(g: GameState, row: int, col: int): (bool, GameState)
    requires IsGrid(g.board.grid) && InBounds((row, col))
    requires g.selected.Some? && InBounds(g.selected.value)
  {
    if At(g.board.grid, (row, col)) == Empty && (row, col) in g.validMoves then
      var moved := g.(board := MovePieceState(g.board, g.selected.value, (row, col)), selected := Some((row, col)));
      (true, ChangeTurnState(moved))
    else (false, g)
  }

  /** select_square: with a piece selected, try to move it; when that fails
      the selection is cleared, the click is tried as a fresh selection,
      and the answer is false whatever that selection does. */
  function SelectState(g: GameState, row: int, col: int): (bool, GameState)
    requires IsGrid(g.board.grid) && InBounds((row, col))
    requires g.selected.Some? ==> InBounds(g.selected.value)
  {
    if g.selected.Some? then
      var (moved, g') := MoveState(g, row, col);
      if moved then (true, g') else (false, PickState(g.(selected := None), row, col).1)
    else PickState(g, row, col)
  }

  /** The board after the successful place_wall: the wall placed and the
      mover's count one lower. */
  function WallPlaced(b: BoardState, w: Wall, c: Color): BoardState {
    var t := PlaceWallState(b, w);
    if c == Black then t.(blackWalls := t.blackWalls - 1) else t.(whiteWalls := t.whiteWalls - 1)
  }

  /** place_wall: is_valid_wall runs first (its speculative anchor is taken
      out again), then the mover must hold a wall; on success the wall is
      placed, the mover's count drops and the turn passes. */
  ghost function PlaceWallStep(g: GameState, w: Wall): (bool, GameState)
    requires PawnsPlaced(g.board.grid)
  {
    var b := if w in g.board.valid then WithoutAnchor(g.board, w) else g.board;
    if LegalWall(g.board, w) && HasWalls(b, g.turn) then
      (true, ChangeTurnState(g.(board := WallPlaced(b, w, g.turn))))
    else (false, g.(board := b))
  }

  /** The part of the invariant about the board and the selection: a
      valid board on which both pawns can reach their goals, and an
      in-bounds selection. */
  ghost predicate BoardConsistent(g: GameState) {
    Valid(g.board) && GoalsReachable(g.board) &&
    (g.selected.Some? ==> InBounds(g.selected.value))
  }

  /** The invariant a game keeps: the board part, and cached moves, while
      a piece is selected, that are the moves of a pawn of the side to
      move standing on the selected cell. */
  ghost predicate Consistent(g: GameState) {
    BoardConsistent(g) &&
    (g.selected.Some? && g.validMoves != {} ==>
       At(g.board.grid, g.selected.value) == Pawn(g.turn) &&
       g.validMoves == ValidMoves(g.board, g.selected.value))
  }

  // ---------------------------------------------------------------------
  // What each step does.

  /** The opening game is consistent. */
  lemma InitialGameConsistent()
    ensures Consistent(InitialGame())
  {
    InitialStateFacts(Standard);
  }

  /** With nothing selected, a click succeeds exactly on a pawn of the side
      to move, which it selects with that pawn's moves cached; any other
      click leaves the game as it was. */
  lemma PickSelectsOwnPawn(g: GameState, row: int, col: int)
    requires IsGrid(g.board.grid) && InBounds((row, col)) && g.selected.None?
    ensures SelectState(g, row, col).0 <==> At(g.board.grid, (row, col)) == Pawn(g.turn)
    ensures SelectState(g, row, col).0 ==>
              SelectState(g, row, col).1 == g.(selected := Some((row, col)), validMoves := ValidMoves(g.board, (row, col)))
    ensures !SelectState(g, row, col).0 ==> SelectState(g, row, col).1 == g
  {}

  /** With a piece selected, the move succeeds exactly when the target is
      empty and among the cached moves; then the board has moved that
      piece there and the turn has passed. */
  lemma MoveSucceedsIff(g: GameState, row: int, col: int)
    requires IsGrid(g.board.grid) && InBounds((row, col))
    requires g.selected.Some? && InBounds(g.selected.value)
    ensures SelectState(g, row, col).0 <==> At(g.board.grid, (row, col)) == Empty && (row, col) in g.validMoves
    ensures SelectState(g, row, col).0 ==>
              var g' := SelectState(g, row, col).1;
              g'.board == MovePieceState(g.board, g.selected.value, (row, col)) &&
              g'.turn == Opposite(g.turn) && g'.selected == Some((row, col)) && g'.validMoves == {}
  {}

  /** A failed move leaves the board and the turn alone and clears the
      selection; the clicked cell is selected instead when it holds a pawn
      of the side to move. */
  lemma FailedMoveReselects(g: GameState, row: int, col: int)
    requires IsGrid(g.board.grid) && InBounds((row, col))
    requires g.selected.Some? && InBounds(g.selected.value)
    requires !SelectState(g, row, col).0
    ensures var g' := SelectState(g, row, col).1;
            g'.board == g.board && g'.turn == g.turn &&
            g'.selected == (if At(g.board.grid, (row, col)) == Pawn(g.turn) then Some((row, col)) else None)
  {}

  /** On a consistent game, place_wall succeeds exactly when is_valid_wall
      accepts the wall and the mover has walls left; on success the wall
      is placed, the mover's count drops by one, the other count stays and
      the turn passes; otherwise nothing changes. */
  lemma PlaceWallIff(g: GameState, w: Wall)
    requires Consistent(g)
    ensures PlaceWallStep(g, w).0 <==> LegalWall(g.board, w) && HasWalls(g.board, g.turn)
    ensures var (ok, g') := PlaceWallStep(g, w);
            if ok then
              g'.board.grid == g.board.grid && g'.board.valid == g.board.valid - ConflictSet(w) &&
              (w.orientation == Horizontal ==> g'.board.h == g.board.h + {Anchor(w)} && g'.board.v == g.board.v) &&
              (w.orientation == Vertical ==> g'.board.v == g.board.v + {Anchor(w)} && g'.board.h == g.board.h) &&
              (g.turn == Black ==> g'.board.blackWalls == g.board.blackWalls - 1 && g'.board.whiteWalls == g.board.whiteWalls) &&
              (g.turn == White ==> g'.board.whiteWalls == g.board.whiteWalls - 1 && g'.board.blackWalls == g.board.blackWalls) &&
              g'.turn == Opposite(g.turn) && g'.validMoves == {} && g'.selected == g.selected
            else g' == g
  {
    if w in g.board.valid {
      SpeculativeAddRestores(g.board, w);
    }
  }

  /** Changing the turn twice gives the move back to the same side. */
  lemma ChangeTurnTwice(g: GameState)
    ensures ChangeTurnState(ChangeTurnState(g)) == g.(validMoves := {})
  {
    assert Opposite(Opposite(g.turn)) == g.turn;
  }

  // ---------------------------------------------------------------------
  // The invariant is kept.

  /** Passing the turn empties the cached moves, so the board part of the
      invariant is all a consistent game needs. */
  lemma ChangeTurnKeepsConsistent(g: GameState)
    requires BoardConsistent(g)
    ensures Consistent(ChangeTurnState(g))
  {}

  /** A move of the selected piece keeps the game consistent. */
  lemma MoveKeepsGameConsistent(g: GameState, row: int, col: int)
    requires Consistent(g) && InBounds((row, col)) && g.selected.Some?
    ensures Consistent(MoveState(g, row, col).1)
  {
    var (moved, g') := MoveState(g, row, col);
    if moved {
      var p := g.selected.value;
      var c := g.turn;
      assert p == PawnPos(g.board, c) by {
        ScansFindOnlyPawn(g.board.grid, c, FirstPawn(g.board.grid, c, 0).value);
      }
      MoveKeepsGoalsReachable(g.board, c, (row, col));
    }
  }

  /** A click keeps the game consistent. */
  lemma SelectKeepsConsistent(g: GameState, row: int, col: int)
    requires Consistent(g) && InBounds((row, col))
    ensures Consistent(SelectState(g, row, col).1)
  {
    if g.selected.Some? {
      MoveKeepsGameConsistent(g, row, col);
    }
  }

  /** ai_move keeps the game consistent when the new board is one of the
      children the search generates for the side to move. */
  lemma AiMoveKeepsConsistent(g: GameState, kind: Copier, i: int)
    requires Consistent(g) && Searchable(g.board, kind)
    requires 0 <= i < |Children(g.board, g.turn, kind)|
    ensures Consistent(ChangeTurnState(g.(board := Children(g.board, g.turn, kind)[i].0)))
  {
    ChildrenKeepInvariant(g.board, g.turn, kind, i);
  }

  /** A wall placement keeps the game consistent. */
  lemma PlaceWallKeepsGameConsistent(g: GameState, w: Wall)
    requires Consistent(g)
    ensures Consistent(PlaceWallStep(g, w).1)
  {
    if w in g.board.valid {
      SpeculativeAddRestores(g.board, w);
    }
    if PlaceWallStep(g, w).0 {
      PlaceWallKeepsConsistent(g.board, w);
      LegalWallKeepsPaths(g.board, w);
    }
  }

  // ---------------------------------------------------------------------
  // The opening moves of a game.

  /** From the opening, white's pawn on (8,4) is selected with the moves
      (7,4), (8,3) and (8,5); clicking (7,4) then moves it and passes the
      turn to black, while black's own pawn cannot be selected by white. */
  lemma OpeningClicks()
    ensures IsGrid(InitialGame().board.grid)
    ensures !SelectState(InitialGame(), 0, 4).0
    ensures var (ok, g1) := SelectState(InitialGame(), 8, 4);
            ok && g1.selected == Some((8, 4)) && g1.validMoves == {(7, 4), (8, 3), (8, 5)} &&
            var (moved, g2) := SelectState(g1, 7, 4);
            moved && g2.turn == Black && g2.selected == Some((7, 4)) &&
            IsGrid(g2.board.grid) && At(g2.board.grid, (7, 4)) == Pawn(White) && At(g2.board.grid, (8, 4)) == Empty
  {
    InitialGridCells();
    OpeningMoves(Standard);
    SwapCells(InitialGrid(), (8, 4), (7, 4), (7, 4));
    SwapCells(InitialGrid(), (8, 4), (7, 4), (8, 4));
  }

  // ---------------------------------------------------------------------
  // Move notation.

  /** translate_row_coord: the character with code n + 96, so 1..9 give 'a'..'i'. */
  function TranslateRowCoord(n: int): (c: char)
    requires 0 <= n + 96 < 0xD800 || 0xE000 <= n + 96 < 0x11_0000
    ensures c as int == n + 96
  {
    (n + 96) as char
  }

  /** The notation print_move writes for a square: the column letter, then the rank 9 - row. */
  function SquareNotation(p: Pos): string
    requires 0 <= p.1 + 97 < 0xD800
  {
    [TranslateRowCoord(p.1 + 1)] + IntToString(9 - p.0)
  }

  /** The notation print_move writes for a wall: its anchor's square, then h or v. */
  function WallNotation(w: Wall): string
    requires 0 <= w.col + 97 < 0xD800
  {
    SquareNotation((w.row, w.col)) + if w.orientation == Horizontal then "h" else "v"
  }

  /** Reads a square's notation back. */
  function ParseSquare(s: string): Option<Pos> {
    if |s| == 0 then None
    else match ParseInt(s[1..])
      case None => None
      case Some(rank) => Some((9 - rank, s[0] as int - 97))
  }

  /** Reads a wall's notation back. */
  function ParseWall(s: string): Option<Wall> {
    if |s| == 0 || (s[|s| - 1] != 'h' && s[|s| - 1] != 'v') then None
    else match ParseSquare(s[..|s| - 1])
      case None => None
      case Some(p) => Some(Wall(p.0, p.1, if s[|s| - 1] == 'h' then Horizontal else Vertical))
  }

  /** The column letters of the board are 'a' to 'i'. */
  lemma ColumnLetters()
    ensures TranslateRowCoord(1) == 'a' && TranslateRowCoord(COLS) == 'i'
    ensures forall n :: 1 <= n <= COLS ==> 'a' <= TranslateRowCoord(n) <= 'i'
  {}

  /** A square's notation determines the square. */
  lemma SquareNotationRoundTrip(p: Pos)
    requires 0 <= p.1 + 97 < 0xD800
    ensures ParseSquare(SquareNotation(p)) == Some(p)
  {
    var t := IntToString(9 - p.0);
    var s := [TranslateRowCoord(p.1 + 1)] + t;
    assert s == SquareNotation(p);
    assert s[1..] == t;
    IntToStringRoundTrip(9 - p.0);
    assert ParseInt(s[1..]) == Some(9 - p.0);
  }

  /** A wall's notation determines the wall. */
  lemma WallNotationRoundTrip(w: Wall)
    requires 0 <= w.col + 97 < 0xD800
    ensures ParseWall(WallNotation(w)) == Some(w)
  {
    var s := WallNotation(w);
    assert s[..|s| - 1] == SquareNotation((w.row, w.col));
    SquareNotationRoundTrip((w.row, w.col));
  }

  // ---------------------------------------------------------------------
  // The Game object.

  class Game {
    var board: Board
    var turn: Color
    /** The cell of the selected piece, if any. */
    var selected: Option<Pos>
    var validMoves: set<Pos>

    function Snapshot(): GameState
      reads this, board
    {
      GameState(board.State(), turn, selected, validMoves)
    }

    ghost predicate Valid()
      reads this, board
    {
      Consistent(Snapshot())
    }

    /** Game(): the state _init builds. */
    constructor ()
      ensures Snapshot() == InitialGame() && fresh(board)
      ensures Valid()
    {
      board := new Board();
      turn := White;
      selected := None;
      validMoves := {};
      InitialGameConsistent();
    }

    /** select_square, re-calling itself once after a failed move. */
    method SelectSquare(row: int, col: int) returns (ok: bool)
      requires Valid() && InBounds((row, col))
      modifies this, board
      decreases if selected.Some? then 1 else 0
      ensures board == old(board)
      ensures (ok, Snapshot()) == SelectState(old(Snapshot()), row, col)
      ensures Valid()
    {
      SelectKeepsConsistent(Snapshot(), row, col);
      if selected.Some? {
        var moved := MovePiece(row, col);
        if !moved {
          selected := None;
          var _ := SelectSquare(row, col);
          return false;
        }
        return true;
      }
      var piece := board.GetPiece(row, col);
      if piece != Empty && piece.color == turn {
        selected := Some((row, col));
        validMoves := board.GetValidMoves((row, col));
        return true;
      }
      return false;
    }

    /** _move_piece. */
    method MovePiece(row: int, col: int) returns (ok: bool)
      requires Valid() && InBounds((row, col)) && selected.Some?
      modifies this, board
      ensures board == old(board)
      ensures (ok, Snapshot()) == MoveState(old(Snapshot()), row, col)
      ensures Valid()
    {
      MoveKeepsGameConsistent(Snapshot(), row, col);
      var piece := board.GetPiece(row, col);
      if piece == Empty && (row, col) in validMoves {
        board.MovePiece(selected.value, row, col);
        selected := Some((row, col));
        ChangeTurn();
        return true;
      }
      return false;
    }

    /** player_has_walls. */
    method PlayerHasWalls() returns (b: bool)
      ensures b == HasWalls(board.State(), turn)
    {
      if turn == Black {
        b := board.blackWalls > 0;
      } else {
        b := board.whiteWalls > 0;
      }
    }

    /** place_wall. */
    method PlaceWall(w: Wall) returns (ok: bool)
      requires Valid()
      modifies this, board
      ensures board == old(board)
      ensures (ok, Snapshot()) == PlaceWallStep(old(Snapshot()), w)
      ensures Valid()
    {
      PlaceWallKeepsGameConsistent(Snapshot(), w);
      var legal := board.IsValidWall(w);
      var hasWalls := PlayerHasWalls();
      if legal && hasWalls {
        board.PlaceWall(w);
        if turn == Black {
          board.blackWalls := board.blackWalls - 1;
        } else {
          board.whiteWalls := board.whiteWalls - 1;
        }
        ChangeTurn();
        return true;
      }
      return false;
    }

    /** change_turn. The cached moves may be stale when it is called in
        the middle of a move, so only the board part of the invariant is
        required. */
    method ChangeTurn()
      requires BoardConsistent(Snapshot())
      modifies this
      ensures board == old(board)
      ensures Snapshot() == ChangeTurnState(old(Snapshot()))
      ensures Valid()
    {
      ChangeTurnKeepsConsistent(Snapshot());
      validMoves := {};
      if turn == Black {
        turn := White;
      } else {
        turn := Black;
      }
    }

    /** ai_move: the board becomes the one the search chose and the turn
        passes. The search returns either the i-th child of the current
        board for the side to move, or, at a leaf (a side has already won),
        a board in the current position. */
    method AiMove(newBoard: Board, ghost kind: Copier, ghost i: int)
      requires Valid()
      requires newBoard.State() == board.State() ||
               (Searchable(board.State(), kind) && 0 <= i < |Children(board.State(), turn, kind)| &&
                newBoard.State() == Children(board.State(), turn, kind)[i].0)
      modifies this
      ensures board == newBoard
      ensures Snapshot() == ChangeTurnState(old(Snapshot()).(board := newBoard.State()))
      ensures Valid()
    {
      if newBoard.State() != board.State() {
        AiMoveKeepsConsistent(Snapshot(), kind, i);
      }
      board := newBoard;
      ChangeTurn();
    }
  }
}
