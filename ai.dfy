/** The AI: successor generation (pawn moves first, then the legal walls
    among those the heuristic keeps, each applied to a copy of the board)
    and the fail-soft negamax search with alpha-beta cut-offs over them.
    The search is proved against GameTree, the depth-bounded tree of
    positions whose children are those get_all_moves lists. */
module Search {
  import opened Constants
  import opened Options
  import opened ExtendedReals
  import opened Walls
  import opened Pieces
  import opened BoardRules
  import opened Training
  import opened Boards
  import opened GameTrees

  /** What a child was reached by: a pawn destination or a wall. */
  datatype Action = MoveTo(cell: Pos) | PlaceAt(wall: Wall)

  /** Which partial_deepcopy the AI uses: AI's builds a plain Board (so the
      copy evaluates with the fixed weights), TrainingAI's a TrainingBoard
      with the weights of the board copied. */
  datatype Copier = PlainCopy | TrainingCopy

  /** A board the search can run on: both pawns placed, and a TrainingBoard
      when the copies must carry weights. */
  ghost predicate Searchable(s: BoardState, kind: Copier) {
    PawnsPlaced(s.grid) && (kind == TrainingCopy ==> s.evaluator.Trained?)
  }

  /** The state of partial_deepcopy's copy. */
  function CopyState(s: BoardState, kind: Copier): BoardState {
    if kind == PlainCopy then s.(evaluator := Standard) else s
  }

  /** The walls the side still holds. */
  function WallsLeft(s: BoardState, c: Color): int {
    if c == Black then s.blackWalls else s.whiteWalls
  }

  // ---------------------------------------------------------------------
  // Iteration orders.  The program iterates over Python sets; the model
  // visits set members in a fixed order: cells row by row, walls in the
  // order precompute_valid_walls adds them.

  /** The members of m among the first n cells, in row-major order. */
  function CellsBefore(m: set<Pos>, n: nat): (cells: seq<Pos>)
    requires n <= ROWS * COLS
    ensures forall q :: q in cells ==> q in m
  {
    if n == 0 then []
    else CellsBefore(m, n - 1) + if CellOf(n - 1) in m then [CellOf(n - 1)] else []
  }

  /** The order get_all_moves visits the destinations in. */
  function MoveOrder(m: set<Pos>): seq<Pos> {
    CellsBefore(m, ROWS * COLS)
  }

  /** The listing holds exactly the board cells of m below n, in strictly
      increasing row-major position, so each once. */
  lemma {:induction false} CellsBeforeSpec(m: set<Pos>, n: nat)
    requires n <= ROWS * COLS
    ensures forall q :: q in CellsBefore(m, n) <==> q in m && InBounds(q) && Index(q) < n
    ensures forall i, j :: 0 <= i < j < |CellsBefore(m, n)| ==> Index(CellsBefore(m, n)[i]) < Index(CellsBefore(m, n)[j])
  {
    if n > 0 {
      CellsBeforeSpec(m, n - 1);
      var p := CellOf(n - 1);
      forall q | InBounds(q) && Index(q) == n - 1 ensures q == p {
        IndexInjective(p, q);
      }
      var prev := CellsBefore(m, n - 1);
      forall q | q in prev ensures InBounds(q) && Index(q) < n - 1 {}
    }
  }

  // ---------------------------------------------------------------------
  // filter_walls.

  function Abs(x: int): int {
    if x < 0 then -x else x
  }

  /** Manhattan distance from a wall's anchor to a cell. */
  function Manhattan(w: Wall, p: Pos): int {
    Abs(w.row - p.0) + Abs(w.col - p.1)
  }

  /** Heuristic 2 as the program writes it: it looks the neighbouring
      (row, col, orientation) tuples up in the board's set of Wall objects. */
  predicate ProbesNeighbour(valid: set<Wall>, w: Wall) {
    InWallSet(valid, TupleOperand(w.row, w.col - 1, w.orientation)) ||
    InWallSet(valid, TupleOperand(w.row, w.col + 1, w.orientation)) ||
    InWallSet(valid, TupleOperand(w.row - 1, w.col, w.orientation)) ||
    InWallSet(valid, TupleOperand(w.row + 1, w.col, w.orientation))
  }

  /** Whether filter_walls keeps w, with the side's pawn on player, the
      opponent's on opponent and the board's legal walls boardValid: within
      distance 3 of either pawn, or passing heuristic 2. */
  predicate KeepWall(player: Pos, opponent: Pos, boardValid: set<Wall>, w: Wall) {
    Manhattan(w, player) <= 3 || Manhattan(w, opponent) <= 3 || ProbesNeighbour(boardValid, w)
  }

  /** The walls of ws that are in valid and kept, in the order of ws. */
  function KeptWalls(player: Pos, opponent: Pos, boardValid: set<Wall>, valid: set<Wall>, ws: seq<Wall>): seq<Wall>
  {
    if ws == [] then []
    else
      KeptWalls(player, opponent, boardValid, valid, ws[..|ws| - 1]) +
        if ws[|ws| - 1] in valid && KeepWall(player, opponent, boardValid, ws[|ws| - 1]) then [ws[|ws| - 1]] else []
  }

  /** Going one wall further along ws keeps that wall exactly when it is in
      valid and kept. */
  lemma KeptWallsSnoc(player: Pos, opponent: Pos, boardValid: set<Wall>, valid: set<Wall>, ws: seq<Wall>, i: int)
    requires 0 <= i < |ws|
    ensures KeptWalls(player, opponent, boardValid, valid, ws[..i + 1]) ==
            KeptWalls(player, opponent, boardValid, valid, ws[..i]) +
              if ws[i] in valid && KeepWall(player, opponent, boardValid, ws[i]) then [ws[i]] else []
  {
    assert ws[..i + 1][..i] == ws[..i];
  }

  /** filter_walls's result for the walls valid. */
  function FilteredWalls(s: BoardState, c: Color, valid: set<Wall>): seq<Wall>
    requires IsGrid(s.grid) && FirstPawn(s.grid, c, 0).Some? && FirstPawn(s.grid, Opposite(c), 0).Some?
  {
    KeptWalls(PawnPos(s, c), PawnPos(s, Opposite(c)), s.valid, valid, WallOrder())
  }

  lemma {:induction false} KeptWallsMembers(player: Pos, opponent: Pos, boardValid: set<Wall>, valid: set<Wall>, ws: seq<Wall>, w: Wall)
    ensures w in KeptWalls(player, opponent, boardValid, valid, ws) <==> w in ws && w in valid && KeepWall(player, opponent, boardValid, w)
    decreases |ws|
  {
    if ws != [] {
      KeptWallsMembers(player, opponent, boardValid, valid, ws[..|ws| - 1], w);
      assert ws == ws[..|ws| - 1] + [ws[|ws| - 1]];
    }
  }

  /** The filter never lists more walls than it looks at, and fewer when
      the first one is dropped. */
  lemma {:induction false} KeptWallsLength(player: Pos, opponent: Pos, boardValid: set<Wall>, valid: set<Wall>, ws: seq<Wall>)
    ensures |KeptWalls(player, opponent, boardValid, valid, ws)| <= |ws|
    ensures ws != [] && !(ws[0] in valid && KeepWall(player, opponent, boardValid, ws[0])) ==> |KeptWalls(player, opponent, boardValid, valid, ws)| < |ws|
    decreases |ws|
  {
    if ws != [] {
      KeptWallsLength(player, opponent, boardValid, valid, ws[..|ws| - 1]);
    }
  }

  /** With the legal walls inside the universe, filter_walls keeps exactly
      the legal walls within Manhattan distance 3 of one of the two pawns:
      heuristic 2 never fires, since no tuple equals a Wall. */
  lemma FilteredWallsAreNearPawns(s: BoardState, c: Color, w: Wall)
    requires PawnsPlaced(s.grid) && WallsConsistent(s)
    ensures w in FilteredWalls(s, c, s.valid) <==>
            w in s.valid && (Manhattan(w, PawnPos(s, c)) <= 3 || Manhattan(w, PawnPos(s, Opposite(c))) <= 3)
  {
    assert c == Black || c == White;
    KeptWallsMembers(PawnPos(s, c), PawnPos(s, Opposite(c)), s.valid, s.valid, WallOrder(), w);
    WallOrderIsUniverse(w);
    TupleNeverInWallSet(s.valid, w.row, w.col - 1, w.orientation);
    TupleNeverInWallSet(s.valid, w.row, w.col + 1, w.orientation);
    TupleNeverInWallSet(s.valid, w.row - 1, w.col, w.orientation);
    TupleNeverInWallSet(s.valid, w.row + 1, w.col, w.orientation);
  }

  /** On the opening board the filter keeps some walls but not all of
      them; the corner wall (0, 0) horizontal is dropped. */
  lemma FilterAtStart(e: Evaluator, c: Color)
    ensures PawnsPlaced(InitialState(e).grid)
    ensures Wall(0, 0, Horizontal) !in FilteredWalls(InitialState(e), c, InitialState(e).valid)
    ensures 0 < |FilteredWalls(InitialState(e), c, InitialState(e).valid)| < |InitialState(e).valid|
  {
    var s := InitialState(e);
    InitialStateFacts(e);
    assert c == Black || c == White;
    FilteredWallsAreNearPawns(s, c, Wall(0, 0, Horizontal));
    WallUniverseMembers(Wall(0, 4, Horizontal));
    FilteredWallsAreNearPawns(s, c, Wall(0, 4, Horizontal));
    assert WallOrder()[0] == Wall(0, 0, Horizontal);
    WallUniverseMembers(Wall(0, 0, Horizontal));
    TupleNeverInWallSet(s.valid, 0, -1, Horizontal);
    TupleNeverInWallSet(s.valid, 0, 1, Horizontal);
    TupleNeverInWallSet(s.valid, -1, 0, Horizontal);
    TupleNeverInWallSet(s.valid, 1, 0, Horizontal);
    KeptWallsLength(PawnPos(s, c), PawnPos(s, Opposite(c)), s.valid, s.valid, WallOrder());
    UniverseSize();
  }

  // ---------------------------------------------------------------------
  // The children get_all_moves produces.

  /** simulate_piece_move on the copy: the side's pawn moves to q. */
  function PawnChild(s: BoardState, c: Color, kind: Copier, q: Pos): (r: BoardState)
    requires IsGrid(s.grid) && FirstPawn(s.grid, c, 0).Some? && InBounds(q)
  {
    MovePieceState(CopyState(s, kind), PawnPos(s, c), q)
  }

  /** simulate_wall's result: the wall placed and the side's count one lower. */
  function SimulatedWall(s: BoardState, w: Wall, c: Color): BoardState {
    var t := PlaceWallState(s, w);
    if c == Black then t.(blackWalls := t.blackWalls - 1) else t.(whiteWalls := t.whiteWalls - 1)
  }

  /** The children of the pawn destinations in cells, in order. */
  function PawnChildren(s: BoardState, c: Color, kind: Copier, cells: seq<Pos>): (r: seq<(BoardState, Action)>)
    requires IsGrid(s.grid) && FirstPawn(s.grid, c, 0).Some?
    requires forall q :: q in cells ==> InBounds(q)
    ensures |r| == |cells|
  {
    if cells == [] then []
    else
      var q := cells[|cells| - 1];
      PawnChildren(s, c, kind, cells[..|cells| - 1]) + [(PawnChild(s, c, kind, q), MoveTo(q))]
  }

  /** The i-th pawn child is the copy with the pawn moved to the i-th cell. */
  lemma {:induction false} PawnChildrenAt(s: BoardState, c: Color, kind: Copier, cells: seq<Pos>, i: int)
    requires IsGrid(s.grid) && FirstPawn(s.grid, c, 0).Some?
    requires forall q :: q in cells ==> InBounds(q)
    requires 0 <= i < |cells|
    ensures PawnChildren(s, c, kind, cells)[i] == (PawnChild(s, c, kind, cells[i]), MoveTo(cells[i]))
    decreases |cells|
  {
    if i < |cells| - 1 {
      PawnChildrenAt(s, c, kind, cells[..|cells| - 1], i);
    }
  }

  /** The children of the walls of ws that is_valid_wall accepts, in order. */
  ghost function WallChildren(s: BoardState, c: Color, kind: Copier, ws: seq<Wall>): seq<(BoardState, Action)>
    requires PawnsPlaced(s.grid)
  {
    if ws == [] then []
    else
      var w := ws[|ws| - 1];
      WallChildren(s, c, kind, ws[..|ws| - 1]) +
        if LegalWall(s, w) then [(SimulatedWall(CopyState(s, kind), w, c), PlaceAt(w))] else []
  }

  /** The destinations get_all_moves lists, in order. */
  function PawnTargets(s: BoardState, c: Color): (cells: seq<Pos>)
    requires PawnsPlaced(s.grid)
    ensures assert c == Black || c == White;
            forall q :: q in cells ==> q in ValidMoves(s, PawnPos(s, c)) && InBounds(q)
  {
    assert c == Black || c == White;
    var cells := MoveOrder(ValidMoves(s, PawnPos(s, c)));
    assert forall q :: q in cells ==> InBounds(q) by {
      forall q | q in cells ensures InBounds(q) {
        ValidMovesAreEmptyCells(s, PawnPos(s, c), q);
      }
    }
    cells
  }

  /** get_all_moves: a child per destination of the side's pawn, then, if
      the side has walls (a count other than 0), a child per filtered wall
      that is_valid_wall accepts. */
  ghost function Children(s: BoardState, c: Color, kind: Copier): seq<(BoardState, Action)>
    requires PawnsPlaced(s.grid)
  {
    assert c == Black || c == White;
    var pawns := PawnChildren(s, c, kind, PawnTargets(s, c));
    var walls := if WallsLeft(s, c) == 0 then [] else WallChildren(s, c, kind, FilteredWalls(s, c, s.valid));
    pawns + walls
  }

  /** A pawn child: a legal destination, the side's pawn on it, the other
      pawn, the walls and the counts unchanged. */
  ghost predicate IsPawnChild(s: BoardState, c: Color, kind: Copier, r: BoardState, q: Pos)
    requires PawnsPlaced(s.grid)
  {
    assert c == Black || c == White;
    PawnsPlaced(r.grid) && r.evaluator == CopyState(s, kind).evaluator &&
    q in ValidMoves(s, PawnPos(s, c)) &&
    PawnPos(r, c) == q && PawnPos(r, Opposite(c)) == PawnPos(s, Opposite(c)) &&
    r.h == s.h && r.v == s.v && r.valid == s.valid &&
    r.blackWalls == s.blackWalls && r.whiteWalls == s.whiteWalls
  }

  /** A wall child: a filtered legal wall of a side with walls left, placed,
      with the side's count one lower and the rest unchanged. */
  ghost predicate IsWallChild(s: BoardState, c: Color, kind: Copier, r: BoardState, w: Wall)
    requires PawnsPlaced(s.grid)
  {
    r.grid == s.grid && r.evaluator == CopyState(s, kind).evaluator &&
    WallsLeft(s, c) != 0 && w in FilteredWalls(s, c, s.valid) && LegalWall(s, w) &&
    r.h == AddWall(s, w).h && r.v == AddWall(s, w).v &&
    r.valid == s.valid - ConflictSet(w) &&
    WallsLeft(r, c) == WallsLeft(s, c) - 1 && WallsLeft(r, Opposite(c)) == WallsLeft(s, Opposite(c))
  }

  /** What a child of Children looks like, by the action that reached it. */
  ghost predicate IsChild(s: BoardState, c: Color, kind: Copier, r: BoardState, a: Action)
    requires PawnsPlaced(s.grid)
  {
    match a
    case MoveTo(q) => IsPawnChild(s, c, kind, r, q)
    case PlaceAt(w) => IsWallChild(s, c, kind, r, w)
  }

  lemma PawnChildIsChild(s: BoardState, c: Color, kind: Copier, q: Pos)
    requires PawnsPlaced(s.grid) && q in ValidMoves(s, PawnPos(s, c))
    ensures IsChild(s, c, kind, PawnChild(s, c, kind, q), MoveTo(q))
  {
    ValidMovesAreEmptyCells(s, PawnPos(s, c), q);
    MovedPawns(s, c, q);
    var r := PawnChild(s, c, kind, q);
    assert r.grid == MovePieceState(s, PawnPos(s, c), q).grid;
  }

  lemma WallChildIsChild(s: BoardState, c: Color, kind: Copier, w: Wall)
    requires PawnsPlaced(s.grid) && WallsLeft(s, c) != 0
    requires w in FilteredWalls(s, c, s.valid) && LegalWall(s, w)
    ensures IsChild(s, c, kind, SimulatedWall(CopyState(s, kind), w, c), PlaceAt(w))
  {
    assert c == Black || c == White;
  }

  lemma {:induction false} WallChildrenAreChildren(s: BoardState, c: Color, kind: Copier, ws: seq<Wall>, i: int)
    requires PawnsPlaced(s.grid) && 0 <= i < |WallChildren(s, c, kind, ws)|
    ensures var a := WallChildren(s, c, kind, ws)[i].1;
      a.PlaceAt? && a.wall in ws && LegalWall(s, a.wall) &&
      WallChildren(s, c, kind, ws)[i].0 == SimulatedWall(CopyState(s, kind), a.wall, c)
    decreases |ws|
  {
    var prefix := WallChildren(s, c, kind, ws[..|ws| - 1]);
    if i < |prefix| {
      WallChildrenAreChildren(s, c, kind, ws[..|ws| - 1], i);
    }
  }

  /** The first children are the pawn moves, in the order of PawnTargets. */
  lemma PawnChildAt(s: BoardState, c: Color, kind: Copier, i: int)
    requires PawnsPlaced(s.grid) && 0 <= i < |PawnTargets(s, c)|
    ensures i < |Children(s, c, kind)|
    ensures Children(s, c, kind)[i] == (PawnChild(s, c, kind, PawnTargets(s, c)[i]), MoveTo(PawnTargets(s, c)[i]))
  {
    var pawns := PawnChildren(s, c, kind, PawnTargets(s, c));
    assert Children(s, c, kind)[..|pawns|] == pawns;
    PawnChildrenAt(s, c, kind, PawnTargets(s, c), i);
  }

  /** The rest are the wall children, and only when the side has walls. */
  lemma WallChildAt(s: BoardState, c: Color, kind: Copier, i: int)
    requires PawnsPlaced(s.grid) && |PawnTargets(s, c)| <= i < |Children(s, c, kind)|
    ensures WallsLeft(s, c) != 0
    ensures i - |PawnTargets(s, c)| < |WallChildren(s, c, kind, FilteredWalls(s, c, s.valid))|
    ensures Children(s, c, kind)[i] == WallChildren(s, c, kind, FilteredWalls(s, c, s.valid))[i - |PawnTargets(s, c)|]
  {
    var pawns := PawnChildren(s, c, kind, PawnTargets(s, c));
    assert Children(s, c, kind)[|pawns|..] == if WallsLeft(s, c) == 0 then [] else WallChildren(s, c, kind, FilteredWalls(s, c, s.valid));
  }

  /** The i-th child: the pawn moves come first, each the copy with the
      pawn moved to a legal destination; then the walls, each the copy with
      a filtered legal wall simulated, and only if the side has walls. */
  lemma ChildAt(s: BoardState, c: Color, kind: Copier, i: int)
    requires PawnsPlaced(s.grid) && 0 <= i < |Children(s, c, kind)|
    ensures Children(s, c, kind)[i].1.MoveTo? <==> i < |PawnTargets(s, c)|
    ensures var a := Children(s, c, kind)[i].1;
      a.MoveTo? ==> a.cell in PawnTargets(s, c) && Children(s, c, kind)[i].0 == PawnChild(s, c, kind, a.cell)
    ensures var a := Children(s, c, kind)[i].1;
      a.PlaceAt? ==> WallsLeft(s, c) != 0 && a.wall in FilteredWalls(s, c, s.valid) && LegalWall(s, a.wall) &&
                     Children(s, c, kind)[i].0 == SimulatedWall(CopyState(s, kind), a.wall, c)
  {
    if i < |PawnTargets(s, c)| {
      PawnChildAt(s, c, kind, i);
    } else {
      WallChildAt(s, c, kind, i);
      WallChildrenAreChildren(s, c, kind, FilteredWalls(s, c, s.valid), i - |PawnTargets(s, c)|);
    }
  }

  /** Every child is a pawn move or a wall placement as IsChild says. */
  lemma ChildrenAreChildren(s: BoardState, c: Color, kind: Copier, i: int)
    requires PawnsPlaced(s.grid) && 0 <= i < |Children(s, c, kind)|
    ensures IsChild(s, c, kind, Children(s, c, kind)[i].0, Children(s, c, kind)[i].1)
  {
    ChildAt(s, c, kind, i);
    var (r, a) := Children(s, c, kind)[i];
    match a
    case MoveTo(q) => PawnChildIsChild(s, c, kind, q);
    case PlaceAt(w) => WallChildIsChild(s, c, kind, w);
  }

  /** The moves come before the walls. */
  lemma PawnMovesComeFirst(s: BoardState, c: Color, kind: Copier, i: int, j: int)
    requires PawnsPlaced(s.grid) && 0 <= i < j < |Children(s, c, kind)|
    requires Children(s, c, kind)[j].1.MoveTo?
    ensures Children(s, c, kind)[i].1.MoveTo?
  {
    ChildAt(s, c, kind, i);
    ChildAt(s, c, kind, j);
  }

  /** The legal-wall bookkeeping depends on the wall sets alone. */
  lemma SameWallsConsistent(s: BoardState, t: BoardState)
    requires s.h == t.h && s.v == t.v && s.valid == t.valid
    ensures WallsConsistent(s) == WallsConsistent(t)
  {
    assert forall u :: Placed(s, u) == Placed(t, u);
  }

  /** Children keep the board's invariant and, like every legal move,
      leave both pawns a path to their goal rows. */
  lemma ChildrenKeepInvariant(s: BoardState, c: Color, kind: Copier, i: int)
    requires Searchable(s, kind) && 0 <= i < |Children(s, c, kind)|
    ensures Searchable(Children(s, c, kind)[i].0, kind)
    ensures WallsConsistent(s) ==> WallsConsistent(Children(s, c, kind)[i].0)
    ensures GoalsReachable(s) ==> GoalsReachable(Children(s, c, kind)[i].0)
  {
    ChildAt(s, c, kind, i);
    var (r, a) := Children(s, c, kind)[i];
    match a
    case MoveTo(q) =>
      var m := MovePieceState(s, PawnPos(s, c), q);
      ValidMovesAreEmptyCells(s, PawnPos(s, c), q);
      MovedPawns(s, c, q);
      assert r.grid == m.grid && r.h == m.h && r.v == m.v && r.valid == m.valid;
      SameWallsConsistent(s, r);
      if GoalsReachable(s) {
        MoveKeepsGoalsReachable(s, c, q);
      }
    case PlaceAt(w) =>
      var m := PlaceWallState(s, w);
      assert r.grid == m.grid && r.h == m.h && r.v == m.v && r.valid == m.valid;
      if WallsConsistent(s) {
        PlaceWallKeepsConsistent(s, w);
        SameWallsConsistent(m, r);
      }
      LegalWallKeepsPaths(s, w);
  }

  // ---------------------------------------------------------------------
  // The search tree.

  /** Every position of ch is searchable. */
  ghost predicate AllSearchable(ch: seq<(BoardState, Action)>, kind: Copier)
    decreases |ch|
  {
    ch == [] || (AllSearchable(ch[..|ch| - 1], kind) && Searchable(ch[|ch| - 1].0, kind))
  }

  /** Every position of ch keeps the legal-wall bookkeeping. */
  ghost predicate AllConsistent(ch: seq<(BoardState, Action)>)
    decreases |ch|
  {
    ch == [] || (AllConsistent(ch[..|ch| - 1]) && WallsConsistent(ch[|ch| - 1].0))
  }

  lemma {:induction false} AllSearchableIff(ch: seq<(BoardState, Action)>, kind: Copier)
    ensures AllSearchable(ch, kind) <==> forall j :: 0 <= j < |ch| ==> Searchable(ch[j].0, kind)
    decreases |ch|
  {
    if ch != [] {
      var prefix := ch[..|ch| - 1];
      AllSearchableIff(prefix, kind);
      assert forall j :: 0 <= j < |prefix| ==> prefix[j] == ch[j];
    }
  }

  lemma {:induction false} AllConsistentIff(ch: seq<(BoardState, Action)>)
    ensures AllConsistent(ch) <==> forall j :: 0 <= j < |ch| ==> WallsConsistent(ch[j].0)
    decreases |ch|
  {
    if ch != [] {
      var prefix := ch[..|ch| - 1];
      AllConsistentIff(prefix);
      assert forall j :: 0 <= j < |prefix| ==> prefix[j] == ch[j];
    }
  }

  /** Every child of a searchable board is searchable, and keeps the
      legal-wall bookkeeping of a board that keeps it. */
  lemma ChildrenSearchable(s: BoardState, c: Color, kind: Copier)
    requires Searchable(s, kind)
    ensures AllSearchable(Children(s, c, kind), kind)
    ensures WallsConsistent(s) ==> AllConsistent(Children(s, c, kind))
  {
    var ch := Children(s, c, kind);
    forall j | 0 <= j < |ch|
      ensures Searchable(ch[j].0, kind) && (WallsConsistent(s) ==> WallsConsistent(ch[j].0))
    {
      ChildrenKeepInvariant(s, c, kind, j);
    }
    AllSearchableIff(ch, kind);
    AllConsistentIff(ch);
  }

  /** The tree negamax explores from s with the side c to move: a leaf with
      c's evaluation at depth 0 or once a side has won, else a node with a
      subtree per child, searched for the other side. */
  ghost function GameTree(s: BoardState, depth: nat, c: Color, kind: Copier): Tree
    requires Searchable(s, kind)
    decreases depth, 0
  {
    if depth == 0 || WinnerOf(s).Some? then Leaf(Evaluation(s, c))
    else
      var ch := Children(s, c, kind);
      assert AllSearchable(ch, kind) by {
        ChildrenSearchable(s, c, kind);
      }
      Node(SubTrees(ch, depth - 1, Opposite(c), kind))
  }

  /** The trees of the children's positions, in order. */
  ghost function SubTrees(ch: seq<(BoardState, Action)>, depth: nat, c: Color, kind: Copier): (r: seq<Tree>)
    requires AllSearchable(ch, kind)
    ensures |r| == |ch|
    decreases depth, 1, |ch|
  {
    if ch == [] then []
    else SubTrees(ch[..|ch| - 1], depth, c, kind) + [GameTree(ch[|ch| - 1].0, depth, c, kind)]
  }

  lemma {:induction false} SubTreesAt(ch: seq<(BoardState, Action)>, depth: nat, c: Color, kind: Copier, i: int)
    requires AllSearchable(ch, kind) && 0 <= i < |ch|
    ensures Searchable(ch[i].0, kind)
    ensures SubTrees(ch, depth, c, kind)[i] == GameTree(ch[i].0, depth, c, kind)
    decreases |ch|
  {
    AllSearchableIff(ch, kind);
    if i < |ch| - 1 {
      SubTreesAt(ch[..|ch| - 1], depth, c, kind, i);
    }
  }

  /** An unfinished position with depth left is an inner node over its children's trees. */
  lemma GameTreeNode(s: BoardState, depth: nat, c: Color, kind: Copier)
    requires Searchable(s, kind) && depth > 0 && WinnerOf(s).None?
    ensures AllSearchable(Children(s, c, kind), kind)
    ensures WallsConsistent(s) ==> AllConsistent(Children(s, c, kind))
    ensures GameTree(s, depth, c, kind) == Node(SubTrees(Children(s, c, kind), depth - 1, Opposite(c), kind))
  {
    ChildrenSearchable(s, c, kind);
  }

  /** An unfinished position with depth left is an inner node with a subtree per child. */
  lemma GameTreeShape(s: BoardState, depth: nat, c: Color, kind: Copier)
    requires Searchable(s, kind) && depth > 0 && WinnerOf(s).None?
    ensures GameTree(s, depth, c, kind).Node?
    ensures |GameTree(s, depth, c, kind).children| == |Children(s, c, kind)|
  {
    GameTreeNode(s, depth, c, kind);
  }

  /** With the root window the search returns the unpruned negamax value,
      and its choice is the first child attaining it (none when every child
      is worth -inf). */
  lemma SearchIsExact(s: BoardState, depth: nat, c: Color, kind: Copier)
    requires Searchable(s, kind)
    ensures var t := GameTree(s, depth, c, kind);
            var o := AlphaBeta(t, NegInf, PosInf);
            o.value == GameTrees.Negamax(t) &&
            (t.Node? && o.best.Some? ==>
               o.best.value < |t.children| && ChildValue(t, o.best.value) == GameTrees.Negamax(t) &&
               forall j :: 0 <= j < o.best.value ==> Lt(ChildValue(t, j), GameTrees.Negamax(t)))
  {
    var t := GameTree(s, depth, c, kind);
    RootWindowIsExact(t);
    if t.Node? {
      RootChoosesFirstBest(t);
    }
  }

  /** The boards of a list of children match their states and actions. */
  ghost predicate Matches(moves: seq<(Board, Action)>, spec: seq<(BoardState, Action)>)
    reads set i | 0 <= i < |moves| :: moves[i].0
  {
    |moves| == |spec| && forall i :: 0 <= i < |moves| ==> moves[i].0.State() == spec[i].0 && moves[i].1 == spec[i].1
  }

  lemma MatchesConcat(m1: seq<(Board, Action)>, m2: seq<(Board, Action)>,
                      s1: seq<(BoardState, Action)>, s2: seq<(BoardState, Action)>)
    requires Matches(m1, s1) && Matches(m2, s2)
    ensures Matches(m1 + m2, s1 + s2)
  {
    forall i | 0 <= i < |m1 + m2|
      ensures (m1 + m2)[i].0.State() == (s1 + s2)[i].0 && (m1 + m2)[i].1 == (s1 + s2)[i].1
    {
      if i >= |m1| {
        assert (m1 + m2)[i] == m2[i - |m1|] && (s1 + s2)[i] == s2[i - |m1|];
      }
    }
  }

  class AI {
    /** The default search depth. */
    const depth: nat
    const kind: Copier

    /** AI(depth), or TrainingAI(depth) with kind TrainingCopy. */
    constructor (depth: nat, kind: Copier)
      ensures this.depth == depth && this.kind == kind
    {
      this.depth := depth;
      this.kind := kind;
    }

    /** partial_deepcopy: a new board with the grid, wall sets, legal walls
        and counters of the given one; AI's is a plain Board, TrainingAI's a
        TrainingBoard with the same weights. */
    method PartialDeepcopy(board: Board) returns (copy: Board)
      requires kind == TrainingCopy ==> board.evaluator.Trained?
      ensures fresh(copy)
      ensures copy.State() == CopyState(board.State(), kind)
    {
      if kind == PlainCopy {
        copy := new Board();
      } else {
        copy := new Board.TrainingBoard(board.evaluator.white, board.evaluator.black);
      }
      copy.grid := board.grid;
      copy.hWalls := board.hWalls;
      copy.vWalls := board.vWalls;
      copy.validWalls := board.validWalls;
      copy.whiteWalls := board.whiteWalls;
      copy.blackWalls := board.blackWalls;
    }

    /** simulate_piece_move: moves the pawn on the board and returns the board. */
    method SimulatePieceMove(piece: Pos, move: Pos, board: Board) returns (result: Board)
      requires IsGrid(board.grid) && InBounds(piece) && InBounds(move)
      modifies board
      ensures result == board
      ensures board.State() == MovePieceState(old(board.State()), piece, move)
    {
      board.MovePiece(piece, move.0, move.1);
      result := board;
    }

    /** simulate_wall: places the wall and takes one wall from the side. */
    method SimulateWall(wall: Wall, board: Board, color: Color) returns (result: Board)
      requires wall in board.validWalls
      modifies board
      ensures result == board
      ensures board.State() == SimulatedWall(old(board.State()), wall, color)
    {
      board.PlaceWall(wall);
      if color == Black {
        board.blackWalls := board.blackWalls - 1;
      } else {
        board.whiteWalls := board.whiteWalls - 1;
      }
      result := board;
    }

    /** filter_walls: the walls of validWalls within distance 3 of either
        pawn, or passing heuristic 2. */
    method FilterWalls(board: Board, validWalls: set<Wall>, color: Color) returns (filtered: seq<Wall>)
      requires PawnsPlaced(board.grid) && forall w :: w in validWalls ==> InUniverse(w)
      ensures filtered == FilteredWalls(board.State(), color, validWalls)
    {
      var opponentColor := Opposite(color);
      var playerPiece := board.GetPieceByColor(color);
      var opponentPiece := board.GetPieceByColor(opponentColor);
      var player, opponent := playerPiece.value, opponentPiece.value;
      filtered := [];
      var order := WallOrder();
      for i := 0 to |order|
        invariant filtered == KeptWalls(player, opponent, board.validWalls, validWalls, order[..i])
      {
        var wall := order[i];
        KeptWallsSnoc(player, opponent, board.validWalls, validWalls, order, i);
        if wall in validWalls {
          var (row, col, orientation) := (wall.row, wall.col, wall.orientation);
          if Abs(row - player.0) + Abs(col - player.1) <= 3 || Abs(row - opponent.0) + Abs(col - opponent.1) <= 3 {
            filtered := filtered + [wall];
          } else if InWallSet(board.validWalls, TupleOperand(row, col - 1, orientation)) ||
                    InWallSet(board.validWalls, TupleOperand(row, col + 1, orientation)) ||
                    InWallSet(board.validWalls, TupleOperand(row - 1, col, orientation)) ||
                    InWallSet(board.validWalls, TupleOperand(row + 1, col, orientation)) {
            filtered := filtered + [wall];
          }
        }
      }
      assert order[..|order|] == order;
    }

    /** get_all_moves: the children of the board for the side, each a fresh
        board; the board itself ends as it began. */
    method GetAllMoves(board: Board, color: Color) returns (moves: seq<(Board, Action)>)
      requires Searchable(board.State(), kind) && WallsConsistent(board.State())
      modifies board
      ensures board.State() == old(board.State())
      ensures forall i :: 0 <= i < |moves| ==> fresh(moves[i].0)
      ensures Matches(moves, Children(old(board.State()), color, kind))
    {
      ghost var s := board.State();
      var piece := board.GetPieceByColor(color);
      var validMoves := board.GetValidMoves(piece.value);
      moves := PawnMoves(board, color, piece.value, validMoves);
      ghost var pawns := PawnChildren(s, color, kind, PawnTargets(s, color));
      forall i | 0 <= i < |moves| ensures moves[i].0.State() == pawns[i].0 && moves[i].1 == pawns[i].1 {
        PawnChildrenAt(s, color, kind, PawnTargets(s, color), i);
      }
      var walls := if color == Black then board.blackWalls else board.whiteWalls;
      if walls == 0 {
        assert Children(s, color, kind) == pawns;
        return;
      }
      var validWalls := board.GetValidWalls();
      var wallsToConsider := FilterWalls(board, validWalls, color);
      var wallMoves := WallMoves(board, color, wallsToConsider);
      ghost var wallChildren := WallChildren(s, color, kind, wallsToConsider);
      assert Children(s, color, kind) == pawns + wallChildren;
      MatchesConcat(moves, wallMoves, pawns, wallChildren);
      moves := moves + wallMoves;
    }

    /** The first loop of get_all_moves: a copy per destination, in row-major
        order, with the side's pawn moved there. */
    method PawnMoves(board: Board, color: Color, p: Pos, validMoves: set<Pos>) returns (moves: seq<(Board, Action)>)
      requires IsGrid(board.grid) && FirstPawn(board.grid, color, 0).Some?
      requires kind == TrainingCopy ==> board.evaluator.Trained?
      requires p == PawnPos(board.State(), color) && forall q :: q in validMoves ==> InBounds(q)
      ensures forall i :: 0 <= i < |moves| ==> fresh(moves[i].0)
      ensures |moves| == |MoveOrder(validMoves)|
      ensures forall i :: 0 <= i < |moves| ==>
                moves[i].0.State() == PawnChild(board.State(), color, kind, MoveOrder(validMoves)[i]) &&
                moves[i].1 == MoveTo(MoveOrder(validMoves)[i])
    {
      ghost var s := board.State();
      ghost var cells: seq<Pos> := [];
      ghost var states: seq<BoardState> := [];
      moves := [];
      for n := 0 to ROWS * COLS
        invariant cells == CellsBefore(validMoves, n)
        invariant |moves| == |cells| == |states|
        invariant forall i :: 0 <= i < |moves| ==> fresh(moves[i].0)
        invariant forall i :: 0 <= i < |moves| ==> moves[i].0.State() == states[i] && moves[i].1 == MoveTo(cells[i])
        invariant forall i :: 0 <= i < |states| ==> states[i] == PawnChild(s, color, kind, cells[i])
      {
        var move := CellOf(n);
        if move in validMoves {
          var newBoard := PawnMove(board, color, p, move);
          cells := cells + [move];
          states := states + [newBoard.State()];
          moves := moves + [(newBoard, MoveTo(move))];
        }
      }
    }

    /** One step of the first loop: a copy with the side's pawn moved to move. */
    method PawnMove(board: Board, color: Color, p: Pos, move: Pos) returns (newBoard: Board)
      requires IsGrid(board.grid) && FirstPawn(board.grid, color, 0).Some?
      requires kind == TrainingCopy ==> board.evaluator.Trained?
      requires p == PawnPos(board.State(), color) && InBounds(move)
      ensures fresh(newBoard)
      ensures newBoard.State() == PawnChild(board.State(), color, kind, move)
    {
      var tempBoard := PartialDeepcopy(board);
      newBoard := SimulatePieceMove(p, move, tempBoard);
    }

    /** The second loop of get_all_moves: a copy per filtered wall that
        is_valid_wall accepts, with the wall simulated.  is_valid_wall's
        speculative anchor is gone again after each probe. */
    method WallMoves(board: Board, color: Color, ws: seq<Wall>) returns (moves: seq<(Board, Action)>)
      requires Searchable(board.State(), kind) && WallsConsistent(board.State())
      modifies board
      ensures board.State() == old(board.State())
      ensures forall i :: 0 <= i < |moves| ==> fresh(moves[i].0)
      ensures Matches(moves, WallChildren(old(board.State()), color, kind, ws))
    {
      ghost var s := board.State();
      moves := [];
      for k := 0 to |ws|
        invariant board.State() == s
        invariant forall i :: 0 <= i < |moves| ==> fresh(moves[i].0)
        invariant Matches(moves, WallChildren(s, color, kind, ws[..k]))
      {
        var wall := ws[k];
        assert ws[..k + 1][..k] == ws[..k];
        var ok := board.IsValidWall(wall);
        if wall in s.valid {
          SpeculativeAddRestores(s, wall);
        }
        if ok {
          var tempBoard := PartialDeepcopy(board);
          var newBoard := SimulateWall(wall, tempBoard, color);
          moves := moves + [(newBoard, PlaceAt(wall))];
        }
      }
      assert ws[..|ws|] == ws;
    }

    /** negamax: at depth 0 or on a won board, the board's evaluation with
        the board itself and no action; otherwise the fail-soft alpha-beta
        scan of the children, with the first strictly best child and its
        action.  The board ends as it began. */
    method Negamax(board: Board, depth: nat, alpha: ExtReal, beta: ExtReal, color: Color)
      returns (value: ExtReal, move: Option<Board>, action: Option<Action>)
      requires Searchable(board.State(), kind) && WallsConsistent(board.State())
      modifies board
      ensures board.State() == old(board.State())
      ensures value == AlphaBeta(GameTree(old(board.State()), depth, color, kind), alpha, beta).value
      ensures depth == 0 || WinnerOf(old(board.State())).Some? ==> move == Some(board) && action == None
      ensures depth != 0 && WinnerOf(old(board.State())).None? ==>
                var o := AlphaBeta(GameTree(old(board.State()), depth, color, kind), alpha, beta);
                var ch := Children(old(board.State()), color, kind);
                (o.best.None? ==> move == None && action == None) &&
                (o.best.Some? ==> o.best.value < |ch| && action == Some(ch[o.best.value].1) &&
                                  move.Some? && move.value.State() == ch[o.best.value].0)
    {
      value, move, action := NegamaxOn(board, depth, alpha, beta, color, board.State());
    }

    /** The search of the i-th of the children ch: negamax one level down
        with the window (-beta, -alpha), negated back to the parent's point
        of view, which is the alpha-beta value of the i-th subtree. */
    method SearchChild(child: Board, depth: nat, alpha: ExtReal, beta: ExtReal, color: Color,
                       ghost ch: seq<(BoardState, Action)>, ghost i: nat)
      returns (evaluation: ExtReal)
      requires AllSearchable(ch, kind) && AllConsistent(ch)
      requires depth > 0 && i < |ch| && child.State() == ch[i].0
      modifies child
      decreases depth, 1
      ensures child.State() == ch[i].0
      ensures evaluation == Neg(AlphaBeta(SubTrees(ch, depth - 1, Opposite(color), kind)[i], Neg(beta), Neg(alpha)).value)
    {
      SubTreesAt(ch, depth - 1, Opposite(color), kind, i);
      AllConsistentIff(ch);
      var childValue, _, _ := NegamaxOn(child, depth - 1, Neg(beta), Neg(alpha), Opposite(color), ch[i].0);
      evaluation := Neg(childValue);
    }

    /** The loop of negamax over the children ch of a node, each searched
        in turn: the best value so far and its board and action are replaced
        only by a strictly better child, alpha rises to each evaluation, and
        the loop stops once beta <= alpha.  It computes the scan of the
        node's subtrees, so it returns the node's alpha-beta outcome. */
    method SearchMoves(moves: seq<(Board, Action)>, depth: nat, alpha: ExtReal, beta: ExtReal, color: Color,
                       ghost ch: seq<(BoardState, Action)>)
      returns (value: ExtReal, move: Option<Board>, action: Option<Action>)
      requires AllSearchable(ch, kind) && AllConsistent(ch)
      requires depth > 0 && Matches(moves, ch)
      modifies set j | 0 <= j < |moves| :: moves[j].0
      decreases depth, 2
      ensures var o := AlphaBeta(Node(SubTrees(ch, depth - 1, Opposite(color), kind)), alpha, beta);
              value == o.value &&
              (o.best.None? ==> move == None && action == None) &&
              (o.best.Some? ==> o.best.value < |ch| && action == Some(ch[o.best.value].1) &&
                                move.Some? && move.value.State() == ch[o.best.value].0)
    {
      ghost var t := Node(SubTrees(ch, depth - 1, Opposite(color), kind));
      value, move, action := NegInf, None, None;
      ghost var best: Option<nat> := None;
      var a := alpha;
      var i := 0;
      ghost var result := AlphaBeta(t, alpha, beta);
      assert result == Scan(t, 0, alpha, beta, Outcome(NegInf, None));
      while i < |moves|
        invariant 0 <= i <= |moves| == |ch| == |t.children|
        invariant forall j :: 0 <= j < |moves| ==> moves[j].0.State() == ch[j].0 && moves[j].1 == ch[j].1
        invariant result == Scan(t, i, a, beta, Outcome(value, best))
        invariant best.None? ==> move == None && action == None
        invariant best.Some? ==> best.value < i && move == Some(moves[best.value].0) && action == Some(moves[best.value].1)
        decreases |moves| - i
      {
        var (child, act) := moves[i];
        var evaluation := SearchChild(child, depth, a, beta, color, ch, i);
        ScanUnfold(t, i, a, beta, Outcome(value, best));
        if Lt(value, evaluation) {
          value, move, action := evaluation, Some(child), Some(act);
          best := Some(i);
        }
        a := Max(a, evaluation);
        if Le(beta, a) {
          assert result == Outcome(value, best);
          break;
        }
        i := i + 1;
      }
      if i == |moves| {
        ScanUnfold(t, i, a, beta, Outcome(value, best));
      }
    }

    /** negamax from the state s: a leaf is evaluated for the side to move
        and returned with the board itself; otherwise the children
        get_all_moves lists are searched. */
    method NegamaxOn(board: Board, depth: nat, alpha: ExtReal, beta: ExtReal, color: Color,
                     ghost s: BoardState)
      returns (value: ExtReal, move: Option<Board>, action: Option<Action>)
      requires Searchable(s, kind)
      requires WallsConsistent(s)
      requires board.State() == s
      modifies board
      decreases depth, 3
      ensures board.State() == s
      ensures value == AlphaBeta(GameTree(s, depth, color, kind), alpha, beta).value
      ensures depth == 0 || WinnerOf(s).Some? ==> move == Some(board) && action == None
      ensures depth != 0 && WinnerOf(s).None? ==>
                var o := AlphaBeta(GameTree(s, depth, color, kind), alpha, beta);
                var ch := Children(s, color, kind);
                (o.best.None? ==> move == None && action == None) &&
                (o.best.Some? ==> o.best.value < |ch| && action == Some(ch[o.best.value].1) &&
                                  move.Some? && move.value.State() == ch[o.best.value].0)
    {
      var winner := board.Winner();
      if depth == 0 || winner.Some? {
        value := board.Evaluate(color);
        return value, Some(board), None;
      }
      var moves := GetAllMoves(board, color);
      GameTreeNode(s, depth, color, kind);
      value, move, action := SearchMoves(moves, depth, alpha, beta, color, Children(s, color, kind));
    }
  }
}
