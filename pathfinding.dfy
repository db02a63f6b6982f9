/** The search graph of the board: cells joined to their orthogonal
    neighbours unless a placed wall lies across the shared edge.  Pawns are
    never obstacles.  Reachability and shortest paths are computed by a
    breadth-first search and specified by walks in that graph. */
module Pathfinding {
  import opened Constants
  import opened Options
  import opened Pieces

  /** A wall anchor: the (row, col) stored in the horizontal or vertical wall set. */
  type Anchor = (int, int)

  const AllCells: set<Pos> := set r, c | 0 <= r < ROWS && 0 <= c < COLS :: (r, c)

  lemma AllCellsAreInBounds(p: Pos)
    ensures p in AllCells <==> InBounds(p)
  {
    if InBounds(p) {
      var (r, c) := p;
      assert (r, c) in AllCells;
    }
  }

  /** The edge rule of the search grid: q is the cell above, below, left of
      or right of p, inside the board, and no wall anchor closes that edge. */
  predicate Adjacent(h: set<Anchor>, v: set<Anchor>, p: Pos, q: Pos) {
    var (r, c) := p;
    InBounds(p) &&
    ((q == (r - 1, c) && r > 0 && (r - 1, c) !in h && (r - 1, c - 1) !in h) ||
     (q == (r + 1, c) && r < ROWS - 1 && (r, c) !in h && (r, c - 1) !in h) ||
     (q == (r, c - 1) && c > 0 && (r, c) !in v && (r + 1, c) !in v) ||
     (q == (r, c + 1) && c < COLS - 1 && (r, c + 1) !in v && (r + 1, c + 1) !in v))
  }

  lemma AdjacentInBounds(h: set<Anchor>, v: set<Anchor>, p: Pos, q: Pos)
    requires Adjacent(h, v, p, q)
    ensures InBounds(p) && InBounds(q) && q in AllCells
  {
    AllCellsAreInBounds(q);
  }

  /** The edge rule is symmetric: the same anchors close an edge in both directions. */
  lemma AdjacentSymmetric(h: set<Anchor>, v: set<Anchor>, p: Pos, q: Pos)
    requires Adjacent(h, v, p, q)
    ensures Adjacent(h, v, q, p)
  {}

  /** More walls never open an edge. */
  lemma AdjacentAntitone(h: set<Anchor>, v: set<Anchor>, h': set<Anchor>, v': set<Anchor>, p: Pos, q: Pos)
    requires h <= h' && v <= v'
    requires Adjacent(h', v', p, q)
    ensures Adjacent(h, v, p, q)
  {}

  /** QuoridorGrid.neighbors: up, down, left, right, each kept when the edge is open. */
  method Neighbors(h: set<Anchor>, v: set<Anchor>, p: Pos) returns (ns: seq<Pos>)
    requires InBounds(p)
    ensures forall q :: q in ns <==> Adjacent(h, v, p, q)
    ensures |ns| <= 4
    ensures forall i, j :: 0 <= i < j < |ns| ==> ns[i] != ns[j]
  {
    var (r, c) := p;
    ns := [];
    if r > 0 && (r - 1, c) !in h && (r - 1, c - 1) !in h {
      ns := ns + [(r - 1, c)];
    }
    if r < ROWS - 1 && (r, c) !in h && (r, c - 1) !in h {
      ns := ns + [(r + 1, c)];
    }
    if c > 0 && (r, c) !in v && (r + 1, c) !in v {
      ns := ns + [(r, c - 1)];
    }
    if c < COLS - 1 && (r, c + 1) !in v && (r + 1, c + 1) !in v {
      ns := ns + [(r, c + 1)];
    }
  }

  // ---------------------------------------------------------------------
  // Walks: the reference definition of reachability.

  /** A walk: a non-empty sequence of cells, each adjacent to the next. */
  ghost predicate IsWalk(h: set<Anchor>, v: set<Anchor>, w: seq<Pos>) {
    |w| > 0 && InBounds(w[0]) &&
    forall i :: 0 <= i < |w| - 1 ==> Adjacent(h, v, w[i], w[i + 1])
  }

  /** A walk from src that ends on the given row. */
  ghost predicate WalkToRow(h: set<Anchor>, v: set<Anchor>, w: seq<Pos>, src: Pos, row: int) {
    IsWalk(h, v, w) && w[0] == src && w[|w| - 1].0 == row
  }

  /** Some walk from src ends on the given row. */
  ghost predicate ReachesRow(h: set<Anchor>, v: set<Anchor>, src: Pos, row: int) {
    exists w :: WalkToRow(h, v, w, src, row)
  }

  lemma WalkInBounds(h: set<Anchor>, v: set<Anchor>, w: seq<Pos>, i: int)
    requires IsWalk(h, v, w) && 0 <= i < |w|
    ensures InBounds(w[i])
  {
    if i > 0 {
      AdjacentInBounds(h, v, w[i - 1], w[i]);
    }
  }

  // ---------------------------------------------------------------------
  // Breadth-first layers.

  /** One BFS round: S together with every cell adjacent to a cell of S. */
  ghost function Step(h: set<Anchor>, v: set<Anchor>, S: set<Pos>): set<Pos> {
    S + Spread(h, v, S)
  }

  /** The cells adjacent to some cell of S. */
  ghost function Spread(h: set<Anchor>, v: set<Anchor>, S: set<Pos>): set<Pos> {
    set q | q in AllCells && exists p :: p in S && Adjacent(h, v, p, q)
  }

  /** The cells reachable from S in at most n steps. */
  ghost function Reach(h: set<Anchor>, v: set<Anchor>, S: set<Pos>, n: nat): set<Pos> {
    if n == 0 then S else Step(h, v, Reach(h, v, S, n - 1))
  }

  ghost predicate GoalIn(R: set<Pos>, row: int) {
    exists p :: p in R && p.0 == row
  }

  lemma {:induction false} ReachWithinBoard(h: set<Anchor>, v: set<Anchor>, src: Pos, n: nat)
    requires InBounds(src)
    ensures Reach(h, v, {src}, n) <= AllCells
  {
    AllCellsAreInBounds(src);
    if n > 0 {
      ReachWithinBoard(h, v, src, n - 1);
    }
  }

  lemma {:induction false} ReachMonotone(h: set<Anchor>, v: set<Anchor>, S: set<Pos>, m: nat, n: nat)
    requires m <= n
    ensures Reach(h, v, S, m) <= Reach(h, v, S, n)
    decreases n - m
  {
    if m < n {
      ReachMonotone(h, v, S, m, n - 1);
    }
  }

  /** Once a round adds nothing, no later round does. */
  lemma {:induction false} ReachStable(h: set<Anchor>, v: set<Anchor>, S: set<Pos>, k: nat, n: nat)
    requires Reach(h, v, S, k + 1) == Reach(h, v, S, k)
    requires k <= n
    ensures Reach(h, v, S, n) == Reach(h, v, S, k)
    decreases n - k
  {
    if n > k {
      ReachStable(h, v, S, k, n - 1);
      StepCongruent(h, v, Reach(h, v, S, n - 1), Reach(h, v, S, k));
    }
  }

  lemma StepCongruent(h: set<Anchor>, v: set<Anchor>, A: set<Pos>, B: set<Pos>)
    requires A == B
    ensures Step(h, v, A) == Step(h, v, B)
  {}

  /** Every cell of a walk's end lies in the layer of the walk's length. */
  lemma {:induction false} WalkEndInReach(h: set<Anchor>, v: set<Anchor>, S: set<Pos>, w: seq<Pos>)
    requires IsWalk(h, v, w) && w[0] in S
    ensures w[|w| - 1] in Reach(h, v, S, |w| - 1)
  {
    if |w| > 1 {
      var w' := w[..|w| - 1];
      assert IsWalk(h, v, w') by {
        forall i | 0 <= i < |w'| - 1 ensures Adjacent(h, v, w'[i], w'[i + 1]) {
          assert w'[i] == w[i] && w'[i + 1] == w[i + 1];
        }
      }
      WalkEndInReach(h, v, S, w');
      var p, q := w[|w| - 2], w[|w| - 1];
      assert Adjacent(h, v, p, q);
      AdjacentInBounds(h, v, p, q);
      assert q in Spread(h, v, Reach(h, v, S, |w| - 2));
    }
  }

  /** Every cell of a layer is the end of a walk from S no longer than the layer. */
  lemma {:induction false} ReachHasWalk(h: set<Anchor>, v: set<Anchor>, S: set<Pos>, n: nat, q: Pos)
    returns (w: seq<Pos>)
    requires forall p :: p in S ==> InBounds(p)
    requires q in Reach(h, v, S, n)
    ensures IsWalk(h, v, w) && w[0] in S && w[|w| - 1] == q && |w| <= n + 1
  {
    if n == 0 {
      w := [q];
    } else if q in Reach(h, v, S, n - 1) {
      w := ReachHasWalk(h, v, S, n - 1, q);
    } else {
      var p :| p in Reach(h, v, S, n - 1) && Adjacent(h, v, p, q);
      var w' := ReachHasWalk(h, v, S, n - 1, p);
      w := w' + [q];
      assert IsWalk(h, v, w) by {
        forall i | 0 <= i < |w| - 1 ensures Adjacent(h, v, w[i], w[i + 1]) {
          if i < |w'| - 1 {
            assert w[i] == w'[i] && w[i + 1] == w'[i + 1];
          }
        }
      }
    }
  }

  // ---------------------------------------------------------------------
  // Distance to a row.

  lemma GrowthShrinksRemainder(R: set<Pos>, R': set<Pos>)
    requires R < R' && R' <= AllCells
    ensures |AllCells - R'| < |AllCells - R|
  {
    var x :| x in R' && x !in R;
    var X, Y := AllCells - R', AllCells - R;
    assert Y == X + (Y - X);
    assert X * (Y - X) == {};
    assert x in Y - X;
    assert |Y| == |X| + |Y - X|;
  }

  /** The fewest steps from src to a cell of the row, searching the layers from k on. */
  ghost function DistFrom(h: set<Anchor>, v: set<Anchor>, src: Pos, row: int, k: nat): Option<nat>
    requires InBounds(src)
    decreases |AllCells - Reach(h, v, {src}, k)|
  {
    var R := Reach(h, v, {src}, k);
    if GoalIn(R, row) then Some(k)
    else if Reach(h, v, {src}, k + 1) == R then None
    else
      ReachWithinBoard(h, v, src, k + 1);
      ReachMonotone(h, v, {src}, k, k + 1);
      GrowthShrinksRemainder(R, Reach(h, v, {src}, k + 1));
      DistFrom(h, v, src, row, k + 1)
  }

  /** The fewest steps from src to a cell of the row, or None. */
  ghost function Dist(h: set<Anchor>, v: set<Anchor>, src: Pos, row: int): Option<nat>
    requires InBounds(src)
  {
    DistFrom(h, v, src, row, 0)
  }

  /** A shortest path's node count, start included; 0 when there is none. */
  ghost function ShortestNodes(h: set<Anchor>, v: set<Anchor>, src: Pos, row: int): nat
    requires InBounds(src)
  {
    match Dist(h, v, src, row)
    case Some(k) => k + 1
    case None => 0
  }

  /** d + 1 is the node count of a shortest walk from src to the row. */
  ghost predicate IsShortest(h: set<Anchor>, v: set<Anchor>, src: Pos, row: int, d: nat) {
    (exists w :: WalkToRow(h, v, w, src, row) && |w| == d + 1) &&
    (forall w :: WalkToRow(h, v, w, src, row) ==> |w| >= d + 1)
  }

  /** When no layer before k meets the row, every walk to the row has more than k nodes. */
  lemma NoShortWalk(h: set<Anchor>, v: set<Anchor>, src: Pos, row: int, k: nat, w: seq<Pos>)
    requires forall j :: 0 <= j < k ==> !GoalIn(Reach(h, v, {src}, j), row)
    requires WalkToRow(h, v, w, src, row)
    ensures |w| > k
  {
    WalkEndInReach(h, v, {src}, w);
    assert GoalIn(Reach(h, v, {src}, |w| - 1), row);
  }

  lemma FirstGoalLayerIsShortest(h: set<Anchor>, v: set<Anchor>, src: Pos, row: int, k: nat)
    requires InBounds(src)
    requires forall j :: 0 <= j < k ==> !GoalIn(Reach(h, v, {src}, j), row)
    requires GoalIn(Reach(h, v, {src}, k), row)
    ensures IsShortest(h, v, src, row, k)
  {
    var g :| g in Reach(h, v, {src}, k) && g.0 == row;
    var w := ReachHasWalk(h, v, {src}, k, g);
    assert WalkToRow(h, v, w, src, row);
    NoShortWalk(h, v, src, row, k, w);
    forall u | WalkToRow(h, v, u, src, row) ensures |u| >= k + 1 {
      NoShortWalk(h, v, src, row, k, u);
    }
  }

  lemma StableWithoutGoalUnreachable(h: set<Anchor>, v: set<Anchor>, src: Pos, row: int, k: nat)
    requires !GoalIn(Reach(h, v, {src}, k), row)
    requires Reach(h, v, {src}, k + 1) == Reach(h, v, {src}, k)
    ensures !ReachesRow(h, v, src, row)
  {
    if ReachesRow(h, v, src, row) {
      var w :| WalkToRow(h, v, w, src, row);
      WalkEndInReach(h, v, {src}, w);
      if |w| - 1 <= k {
        ReachMonotone(h, v, {src}, |w| - 1, k);
      } else {
        ReachStable(h, v, {src}, k, |w| - 1);
      }
    }
  }

  lemma {:induction false} DistFromCorrect(h: set<Anchor>, v: set<Anchor>, src: Pos, row: int, k: nat)
    requires InBounds(src)
    requires forall j :: 0 <= j < k ==> !GoalIn(Reach(h, v, {src}, j), row)
    ensures DistFrom(h, v, src, row, k).Some? ==> IsShortest(h, v, src, row, DistFrom(h, v, src, row, k).value)
    ensures DistFrom(h, v, src, row, k).None? ==> !ReachesRow(h, v, src, row)
    decreases |AllCells - Reach(h, v, {src}, k)|
  {
    var R := Reach(h, v, {src}, k);
    var d := DistFrom(h, v, src, row, k);
    if GoalIn(R, row) {
      assert d == Some(k);
      FirstGoalLayerIsShortest(h, v, src, row, k);
    } else if Reach(h, v, {src}, k + 1) == R {
      assert d == None;
      StableWithoutGoalUnreachable(h, v, src, row, k);
    } else {
      ReachWithinBoard(h, v, src, k + 1);
      ReachMonotone(h, v, {src}, k, k + 1);
      GrowthShrinksRemainder(R, Reach(h, v, {src}, k + 1));
      assert d == DistFrom(h, v, src, row, k + 1);
      forall j | 0 <= j < k + 1 ensures !GoalIn(Reach(h, v, {src}, j), row) {
        if j == k {
          assert !GoalIn(R, row);
        }
      }
      DistFromCorrect(h, v, src, row, k + 1);
    }
  }

  /** Dist is the length of a shortest walk: one of that many steps exists and
      none is shorter; None exactly when no walk reaches the row. */
  lemma DistCorrect(h: set<Anchor>, v: set<Anchor>, src: Pos, row: int)
    requires InBounds(src)
    ensures Dist(h, v, src, row).Some? <==> ReachesRow(h, v, src, row)
    ensures Dist(h, v, src, row).Some? ==> IsShortest(h, v, src, row, Dist(h, v, src, row).value)
  {
    DistFromCorrect(h, v, src, row, 0);
  }

  /** The node count of a shortest path is pinned down by a walk of that many
      nodes and a lower bound on every walk. */
  lemma ShortestNodesIs(h: set<Anchor>, v: set<Anchor>, src: Pos, row: int, n: nat, w: seq<Pos>)
    requires InBounds(src)
    requires WalkToRow(h, v, w, src, row) && |w| == n
    requires forall u :: WalkToRow(h, v, u, src, row) ==> |u| >= n
    ensures ShortestNodes(h, v, src, row) == n
  {
    DistCorrect(h, v, src, row);
  }

  // ---------------------------------------------------------------------
  // Breadth-first search.

  lemma SpreadUnion(h: set<Anchor>, v: set<Anchor>, A: set<Pos>, B: set<Pos>)
    ensures Spread(h, v, A + B) == Spread(h, v, A) + Spread(h, v, B)
  {
    forall q | q in Spread(h, v, A + B) ensures q in Spread(h, v, A) + Spread(h, v, B) {
      var p :| p in A + B && Adjacent(h, v, p, q);
    }
  }

  /** The cells one neighbour call adds are the spread of that one cell. */
  lemma SpreadOne(h: set<Anchor>, v: set<Anchor>, p: Pos, ns: seq<Pos>)
    requires forall q :: q in ns <==> Adjacent(h, v, p, q)
    ensures Spread(h, v, {p}) == set q | q in ns
  {
    forall q | q in ns ensures q in Spread(h, v, {p}) {
      AdjacentInBounds(h, v, p, q);
    }
  }

  /** After a round, the spread of the new layer alone accounts for all of the next round. */
  lemma FrontierSuffices(h: set<Anchor>, v: set<Anchor>, visited: set<Pos>, next: set<Pos>)
    requires next == Step(h, v, visited)
    ensures Step(h, v, next) == next + Spread(h, v, next - visited)
  {
    assert next == visited + (next - visited);
    SpreadUnion(h, v, visited, next - visited);
  }

  /** The cells reachable from the layer after a round: visited together
      with the neighbours of every frontier cell. */
  method Expand(h: set<Anchor>, v: set<Anchor>, visited: set<Pos>, frontier: set<Pos>) returns (next: set<Pos>)
    requires frontier <= visited <= AllCells
    ensures next == visited + Spread(h, v, frontier)
  {
    next := visited;
    var todo := frontier;
    while todo != {}
      invariant todo <= frontier
      invariant next == visited + Spread(h, v, frontier - todo)
      decreases |todo|
    {
      var p :| p in todo;
      AllCellsAreInBounds(p);
      var ns := Neighbors(h, v, p);
      SpreadOne(h, v, p, ns);
      SpreadUnion(h, v, frontier - todo, {p});
      assert frontier - (todo - {p}) == (frontier - todo) + {p};
      next := next + set q | q in ns;
      todo := todo - {p};
    }
  }

  /** One BFS round that adds cells and meets no goal keeps the layer
      invariants, moves the distance search on one layer, and shrinks the
      unvisited part of the board. */
  lemma RoundAdvances(h: set<Anchor>, v: set<Anchor>, src: Pos, row: int, k: nat, visited: set<Pos>, next: set<Pos>)
    requires InBounds(src)
    requires visited == Reach(h, v, {src}, k) && next == Step(h, v, visited)
    requires !GoalIn(visited, row) && next != visited
    ensures next == Reach(h, v, {src}, k + 1) && next <= AllCells
    ensures DistFrom(h, v, src, row, k) == DistFrom(h, v, src, row, k + 1)
    ensures |AllCells - next| < |AllCells - visited|
    ensures Step(h, v, next) == next + Spread(h, v, next - visited)
  {
    ReachWithinBoard(h, v, src, k + 1);
    ReachMonotone(h, v, {src}, k, k + 1);
    GrowthShrinksRemainder(visited, next);
    FrontierSuffices(h, v, visited, next);
  }

  /** shortest_path: the node count, start included, of a shortest walk
      from src to the row, found layer by layer; 0 when the row cannot be
      reached. */
  method ShortestPathNodes(h: set<Anchor>, v: set<Anchor>, src: Pos, row: int) returns (n: nat)
    requires InBounds(src)
    ensures n == ShortestNodes(h, v, src, row)
  {
    AllCellsAreInBounds(src);
    var visited, frontier := {src}, {src};
    var k: nat := 0;
    while true
      invariant visited == Reach(h, v, {src}, k)
      invariant frontier <= visited <= AllCells
      invariant Step(h, v, visited) == visited + Spread(h, v, frontier)
      invariant DistFrom(h, v, src, row, k) == Dist(h, v, src, row)
      decreases |AllCells - visited|
    {
      if exists p | p in visited :: p.0 == row {
        return k + 1;
      }
      var next := Expand(h, v, visited, frontier);
      if next == visited {
        return 0;
      }
      RoundAdvances(h, v, src, row, k, visited, next);
      visited, frontier, k := next, next - visited, k + 1;
    }
  }

  /** A path exists exactly when the shortest one has a positive node count. */
  lemma ShortestNodesPositive(h: set<Anchor>, v: set<Anchor>, src: Pos, row: int)
    requires InBounds(src)
    ensures ShortestNodes(h, v, src, row) > 0 <==> ReachesRow(h, v, src, row)
  {
    DistCorrect(h, v, src, row);
  }

  /** Both sides' goals: black heads for the last row, white for row 0. */
  ghost predicate BothReachGoals(h: set<Anchor>, v: set<Anchor>, black: Pos, white: Pos) {
    ReachesRow(h, v, black, ROWS - 1) && ReachesRow(h, v, white, 0)
  }

  /** The grid scan of path_exists: every pawn found overwrites the
      position recorded for its colour. */
  method ScanPawns(grid: Grid) returns (blackPos: Option<Pos>, whitePos: Option<Pos>)
    requires IsGrid(grid)
    ensures blackPos == LastPawn(grid, Black, ROWS * COLS)
    ensures whitePos == LastPawn(grid, White, ROWS * COLS)
  {
    blackPos, whitePos := None, None;
    for row := 0 to ROWS
      invariant blackPos == LastPawn(grid, Black, row * COLS)
      invariant whitePos == LastPawn(grid, White, row * COLS)
    {
      for col := 0 to COLS
        invariant blackPos == LastPawn(grid, Black, row * COLS + col)
        invariant whitePos == LastPawn(grid, White, row * COLS + col)
      {
        CellOfIndex((row, col));
        LastPawnNext(grid, Black, row * COLS + col);
        LastPawnNext(grid, White, row * COLS + col);
        var piece := grid[row][col];
        if piece != Empty {
          if piece.color == Black {
            blackPos := Some((row, col));
          }
          if piece.color == White {
            whitePos := Some((row, col));
          }
        }
      }
    }
  }

  /** path_exists: the pawn positions are the last black and last white
      pawn of a row-major scan of the grid; the result is whether each can
      reach its goal row.  Pawns are not obstacles to the search. */
  method PathExists(grid: Grid, h: set<Anchor>, v: set<Anchor>) returns (b: bool)
    requires IsGrid(grid)
    requires LastPawn(grid, Black, ROWS * COLS).Some? && LastPawn(grid, White, ROWS * COLS).Some?
    ensures b <==> BothReachGoals(h, v, LastPawn(grid, Black, ROWS * COLS).value, LastPawn(grid, White, ROWS * COLS).value)
  {
    var blackPos, whitePos := ScanPawns(grid);
    LastPawnSpec(grid, Black, ROWS * COLS);
    LastPawnSpec(grid, White, ROWS * COLS);
    var blackNodes := ShortestPathNodes(h, v, blackPos.value, ROWS - 1);
    var whiteNodes := ShortestPathNodes(h, v, whitePos.value, 0);
    ShortestNodesPositive(h, v, blackPos.value, ROWS - 1);
    ShortestNodesPositive(h, v, whitePos.value, 0);
    b := blackNodes > 0 && whiteNodes > 0;
  }

  // ---------------------------------------------------------------------
  // Consequences.

  /** A walk under more walls is a walk under fewer. */
  lemma WalkAntitone(h: set<Anchor>, v: set<Anchor>, h': set<Anchor>, v': set<Anchor>, w: seq<Pos>)
    requires h <= h' && v <= v' && IsWalk(h', v', w)
    ensures IsWalk(h, v, w)
  {
    forall i | 0 <= i < |w| - 1 ensures Adjacent(h, v, w[i], w[i + 1]) {
      AdjacentAntitone(h, v, h', v', w[i], w[i + 1]);
    }
  }

  /** Adding walls never creates a path, so once the goals are cut off
      they stay cut off. */
  lemma BothReachGoalsAntitone(h: set<Anchor>, v: set<Anchor>, h': set<Anchor>, v': set<Anchor>, black: Pos, white: Pos)
    requires h <= h' && v <= v'
    ensures BothReachGoals(h', v', black, white) ==> BothReachGoals(h, v, black, white)
  {
    if BothReachGoals(h', v', black, white) {
      var wb :| WalkToRow(h', v', wb, black, ROWS - 1);
      var ww :| WalkToRow(h', v', ww, white, 0);
      WalkAntitone(h, v, h', v', wb);
      WalkAntitone(h, v, h', v', ww);
      assert WalkToRow(h, v, wb, black, ROWS - 1);
      assert WalkToRow(h, v, ww, white, 0);
    }
  }

  /** The straight walk along src's column to the row. */
  ghost function ColumnWalk(src: Pos, row: int): (w: seq<Pos>)
    requires InBounds(src) && 0 <= row < ROWS
    ensures |w| > 0 && w[0] == src && w[|w| - 1] == (row, src.1)
    ensures |w| == (if src.0 <= row then row - src.0 else src.0 - row) + 1
  {
    if src.0 <= row then seq(row - src.0 + 1, i => (src.0 + i, src.1))
    else seq(src.0 - row + 1, i => (src.0 - i, src.1))
  }

  /** On the empty board every cell reaches every row, straight along its column. */
  lemma EmptyBoardReachesEveryRow(src: Pos, row: int)
    requires InBounds(src) && 0 <= row < ROWS
    ensures WalkToRow({}, {}, ColumnWalk(src, row), src, row)
    ensures ReachesRow({}, {}, src, row)
  {
    var w := ColumnWalk(src, row);
    forall i | 0 <= i < |w| - 1 ensures Adjacent({}, {}, w[i], w[i + 1]) {
      assert InBounds(w[i]);
    }
  }

  /** path_exists holds on the empty board, wherever the pawns stand. */
  lemma EmptyBoardPathExists(black: Pos, white: Pos)
    requires InBounds(black) && InBounds(white)
    ensures BothReachGoals({}, {}, black, white)
  {
    EmptyBoardReachesEveryRow(black, ROWS - 1);
    EmptyBoardReachesEveryRow(white, 0);
  }

  /** A walk that starts in a set closed under the edge relation stays in it. */
  lemma {:induction false} WalkStaysInClosedSet(h: set<Anchor>, v: set<Anchor>, C: set<Pos>, w: seq<Pos>, i: int)
    requires forall p, q :: p in C && Adjacent(h, v, p, q) ==> q in C
    requires IsWalk(h, v, w) && w[0] in C && 0 <= i < |w|
    ensures w[i] in C
  {
    if i > 0 {
      WalkStaysInClosedSet(h, v, C, w, i - 1);
      assert Adjacent(h, v, w[i - 1], w[i]);
    }
  }

  /** The boxed-in white pawn: walls (8,4,v), (7,4,h) and (8,6,v) shut the
      white pawn at (8,4) into the cells (8,4) and (8,5), so no path of
      white's reaches row 0, and path_exists is false wherever black stands. */
  lemma BoxedWhiteCannotReachGoal(black: Pos)
    ensures !ReachesRow({(7, 4)}, {(8, 4), (8, 6)}, (8, 4), 0)
    ensures !BothReachGoals({(7, 4)}, {(8, 4), (8, 6)}, black, (8, 4))
  {
    var h, v := {(7, 4)}, {(8, 4), (8, 6)};
    var C := {(8, 4), (8, 5)};
    forall p, q | p in C && Adjacent(h, v, p, q) ensures q in C {}
    forall w | WalkToRow(h, v, w, (8, 4), 0) ensures false {
      WalkStaysInClosedSet(h, v, C, w, |w| - 1);
    }
  }

  /** A horizontal wall above the white pawn at (8,4) leaves it the left and right neighbours only. */
  lemma WallAboveLeavesTwoNeighbours(q: Pos)
    ensures Adjacent({(7, 4)}, {}, (8, 4), q) <==> q == (8, 3) || q == (8, 5)
  {}

  /** A vertical wall (1,4) beside the black pawn at (0,4) leaves it the down and right neighbours only. */
  lemma WallBesideLeavesTwoNeighbours(q: Pos)
    ensures Adjacent({}, {(1, 4)}, (0, 4), q) <==> q == (1, 4) || q == (0, 5)
  {}

  /** A score that a step may raise by at most one bounds the length of every walk. */
  lemma {:induction false} WalkPotential(h: set<Anchor>, v: set<Anchor>, w: seq<Pos>, f: Pos -> int, i: int)
    requires forall p, q :: Adjacent(h, v, p, q) ==> f(q) <= f(p) + 1
    requires IsWalk(h, v, w) && 0 <= i < |w|
    ensures f(w[i]) <= f(w[0]) + i
  {
    if i > 0 {
      WalkPotential(h, v, w, f, i - 1);
      assert Adjacent(h, v, w[i - 1], w[i]);
    }
  }

  /** Black's shortest path from (0,4) on the empty board has ROWS nodes. */
  lemma ShortestFromBlackStart()
    ensures ShortestNodes({}, {}, (0, 4), ROWS - 1) == ROWS
  {
    var w := ColumnWalk((0, 4), ROWS - 1);
    EmptyBoardReachesEveryRow((0, 4), ROWS - 1);
    forall u | WalkToRow({}, {}, u, (0, 4), ROWS - 1) ensures |u| >= ROWS {
      WalkPotential({}, {}, u, (p: Pos) => p.0, |u| - 1);
    }
    ShortestNodesIs({}, {}, (0, 4), ROWS - 1, ROWS, w);
  }

  /** A row-distance score that also charges the sideways step the wall (0,4,h) forces at (0,4). */
  function DetourScore(p: Pos): int {
    if p == (0, 4) then 0 else p.0 + 1
  }

  /** After the wall (0,4,h) the shortest path from (0,4) has ROWS + 1 nodes:
      one sideways step, then straight down column 3. */
  lemma ShortestAfterWallBelowBlack()
    ensures ShortestNodes({(0, 4)}, {}, (0, 4), ROWS - 1) == ROWS + 1
  {
    var h: set<Anchor> := {(0, 4)};
    var w := [(0, 4)] + ColumnWalk((0, 3), ROWS - 1);
    assert IsWalk(h, {}, w) by {
      forall i | 0 <= i < |w| - 1 ensures Adjacent(h, {}, w[i], w[i + 1]) {
        if i > 0 {
          assert w[i] == (i - 1, 3) && w[i + 1] == (i, 3);
        }
      }
    }
    assert WalkToRow(h, {}, w, (0, 4), ROWS - 1);
    forall u | WalkToRow(h, {}, u, (0, 4), ROWS - 1) ensures |u| >= ROWS + 1 {
      WalkPotential(h, {}, u, DetourScore, |u| - 1);
    }
    ShortestNodesIs(h, {}, (0, 4), ROWS - 1, ROWS + 1, w);
  }

  /** A cell next to a cell that reaches the row reaches it too, one step longer. */
  lemma ReachesThroughNeighbour(h: set<Anchor>, v: set<Anchor>, q: Pos, src: Pos, row: int)
    requires Adjacent(h, v, q, src) && ReachesRow(h, v, src, row)
    ensures ReachesRow(h, v, q, row)
  {
    var w :| WalkToRow(h, v, w, src, row);
    var w' := [q] + w;
    assert IsWalk(h, v, w') by {
      forall i | 0 <= i < |w'| - 1 ensures Adjacent(h, v, w'[i], w'[i + 1]) {
        if i > 0 {
          assert w'[i] == w[i - 1] && w'[i + 1] == w[i];
        }
      }
    }
    assert WalkToRow(h, v, w', q, row);
  }
}
