# Quoridor rules and search engine, modelled in Dafny

This project models the core of a two-player Quoridor program on a 9 x 9 board. It covers:

- **The board.** There is an occupancy grid and two sets of wall anchors, horizontal and vertical. A set of still-legal walls is fixed when the board is built. Each side has a counter of walls left.
- **Board rules.** Placing a wall prunes the walls it overlaps or crosses. A wall is legal only if both pawns can still reach their goal rows once it is added; the check adds the anchor, tests, then removes it. The rules also cover edge blocking, pawn moves (step, straight jump, sideways slide), the winner and the positional evaluator.
- **The path oracle.** This is the wall-aware four-neighbour relation, plus the test that both pawns can still reach their goal rows.
- **The AI.** It generates successors: pawn moves first, then filtered wall placements, each applied to a copy of the board. It then runs a fail-soft negamax search with alpha-beta cut-offs.
- **The training variant.** Its evaluator weighs the same features with weights chosen per side, and scores a won or lost game as plus or minus infinity.
- **The evolutionary operators.** Win-rate scoring with a stable sort, truncation selection, single-point crossover, mutation and assembly of the next generation.
- **The game.** The turn and selection state machine of a `Game`, and the move notation.
- **The mouse mapping.** The mapping from a pixel to a square or a wall slot.

The modules follow the source files: `board.py` is split into `BoardRules` (the rules on board values) and `Boards` (the `Board` class), and `ai.py` into `GameTrees` (negamax and alpha-beta on trees) and `Search` (the children and the `AI` class). `training.py` is `Training`, and `main.py` is `Mouse`. Three helper modules hold what several files share: `Constants` (the board size and the colours), `Options` (an option type) and `ExtendedReals` (scores with infinities). The data model:

- **Values.** Pure value types are datatypes: `Wall`, the cell contents `Cell = Empty | Pawn(color)`, scores as `ExtReal = NegInf | Fin(real) | PosInf`, and game trees.
- **Objects.** Objects that the program updates in place are classes with the same fields, and their methods state the new state:
  - `Boards.Board`: the grid, the wall sets, the legal walls, the counters and the evaluator.
  - `Pieces.Piece`, `Games.Game` and `Search.AI`.
  - A weight vector is an `array<real>`, as the numpy array is mutated in place.
- **State as values.** A `Board`'s fields are also gathered into a `BoardState` value. The rules are functions on that value, and every method is proved against them.

What is proved, in outline:

- **Boards.** Wall placement keeps the legal set free of conflicts with placed walls. A legal wall keeps a path open for both pawns. Every pawn destination is one or two open edges away, and moving a pawn keeps both goals reachable.
- **Pathfinding.** The path test is proved against an independent definition of reachability by walks. The breadth-first search that replaces the external A* library is proved to return the node count of a shortest walk.
- **Search.**
  - Alpha-beta is proved fail-soft (Knuth and Moore's bounds) for every non-empty window. So with the root window (-inf, +inf), the pruned value equals plain negamax, and the move chosen is the first child attaining it.
  - The search method `Search.AI.Negamax` is proved to compute exactly that, over the tree of children that `get_all_moves` generates. Its contract states the children's order and contents.
- **Game and evolution.**
  - The game's click and wall steps keep the board valid.
  - The population ranking is proved to be the unique stable sort by decreasing win rate.
  - The evolutionary operators are proved to build exactly the splice and mutation of their inputs, for the given random draws.

Where a described behaviour and the code differ, the model follows the code:

- **Wall filter.** The second ("adjacent wall") test of `filter_walls` looks tuples up in a set of `Wall` objects. Since `Wall.__eq__` is false against a tuple, the test never holds. The filter therefore keeps exactly the legal walls within Manhattan distance 3 of either pawn (`Search.FilteredWallsAreNearPawns`). The program's own test expects this: the wall (0, 0) horizontal is left out at the start (`Search.FilterAtStart`).
- **No memoization.** There is no position hashing or memoization in the code, so none is modelled.
- **Selection after a move.** After a successful move the game keeps the moved piece selected. The model's `selected` cell therefore follows the pawn. The next click then fails the move against the emptied cache of moves, re-selects, and returns false.

## Model

| member | source | states |
|---|---|---|
| Constants.Opposite | quoridor/ai.py:44-45 | The opposite colour differs from its argument; with two colours this maps WHITE to BLACK and BLACK to WHITE. |
| ExtendedReals.Max | quoridor/ai.py:33 | `max(alpha, evaluation)` is an upper bound of both arguments and is one of them. |
| ExtendedReals.NegInvolution | quoridor/ai.py:26 | Negating a score twice gives it back. |
| ExtendedReals.NegReversesOrder | quoridor/ai.py:26 | Negation reverses the strict order of scores, infinities included. |
| ExtendedReals.InfinitiesAreExtreme | quoridor/ai.py:20 | `float("-inf")` is at most every score and `float("inf")` at least every score. |
| ExtendedReals.Trichotomy | quoridor/ai.py:25-35 | Helper of `GameTrees.AlphaBetaIsFailSoft` and `GameTrees.ScanIsFailSoft`, used in the proof about the loop: scores are totally ordered: one is below the other or they are equal. |
| ExtendedReals.LtTransitive | quoridor/ai.py:25-35 | Helper of `GameTrees.AlphaBetaIsFailSoft` and `GameTrees.ScanIsFailSoft`, used in the proof about the loop: the strict order of scores is transitive. |
| ExtendedReals.LtIrreflexive | quoridor/ai.py:25-35 | Helper of `GameTrees.AlphaBetaIsFailSoft` and `GameTrees.ScanIsFailSoft`, used in the proof about the loop: no score is strictly greater than itself. |
| ExtendedReals.LeTransitive | quoridor/ai.py:25-35 | Helper of `GameTrees.AlphaBetaIsFailSoft` and `GameTrees.ScanIsFailSoft`, used in the proof about the loop: the order `<=` used by the cut-off test is transitive. |
| ExtendedReals.LeAntisymmetric | quoridor/ai.py:25-35 | Helper of `GameTrees.AlphaBetaIsFailSoft` and `GameTrees.ScanIsFailSoft`, used in the proof about the loop: two scores each at most the other are equal. |
| ExtendedReals.NotLeIsLt | quoridor/ai.py:25-35 | Helper of `GameTrees.AlphaBetaIsFailSoft` and `GameTrees.ScanIsFailSoft`, used in the proof about the loop: `beta <= alpha` failing means `alpha < beta`. |
| ExtendedReals.MaxAssociative | quoridor/ai.py:25-35 | Helper of `GameTrees.AlphaBetaIsFailSoft` and `GameTrees.ScanIsFailSoft`, used in the proof about the loop: folding `max` over the children does not depend on grouping. |
| Walls.EqualsIsStructural | quoridor/wall.py:7-12 | Two walls are equal exactly when row, column and orientation agree. |
| Walls.Equals | quoridor/wall.py:7-12 | Definition: a wall equals another wall with the same row, column and orientation, and never a tuple (properties in `Walls.EqualsIsStructural`). |
| Walls.InWallSet | quoridor/ai.py:110-111 | Definition: Python's `x in s` on a set of walls, some member comparing equal to x (properties in `Walls.TupleNeverInWallSet`). |
| Walls.TupleNeverInWallSet | quoridor/wall.py:7-12 | A tuple never compares equal to a wall, so it is never found in a set of walls. |
| Walls.HashKey | quoridor/wall.py:14-15 | Definition: the tuple (row, col, orientation) that `__hash__` hashes (properties in `Walls.EqualWallsHashEqually`). |
| Walls.EqualWallsHashEqually | quoridor/wall.py:14-15 | Equal walls have equal hash keys. |
| Walls.NatToString | quoridor/wall.py:17-18 | The decimal text of a natural number is non-empty and all digits. |
| Walls.IntToString | quoridor/wall.py:17-18 | The decimal text of an integer is non-empty and has no space, so it can be split off in the printed form. |
| Walls.NatToStringRoundTrip | quoridor/wall.py:17-18 | The value of a natural number's decimal text is that number. |
| Walls.IntToStringRoundTrip | quoridor/wall.py:17-18 | Parsing an integer's decimal text, sign included, gives the integer back. |
| Walls.Repr | quoridor/wall.py:17-18 | Definition: the row, column and orientation name separated by single spaces (properties in `Walls.ReprRoundTrip`). |
| Walls.ReprRoundTrip | quoridor/wall.py:17-18 | Parsing the printed form "row col orientation" gives the wall back. |
| Walls.ReprInjective | quoridor/wall.py:17-18 | Two walls with the same printed form are the same wall. |
| Pieces.Centre | quoridor/piece.py:17-19 | The pixel centre `SQUARE_SIZE * i + SQUARE_SIZE // 2` lies inside square i. |
| Pieces.Piece.constructor | quoridor/piece.py:8-15 | A new piece stores its row, column and colour and has its pixel centre computed from its cell. |
| Pieces.Piece.CalcPos | quoridor/piece.py:17-19 | `x` and `y` become the centre of the piece's column and row; the cell and the colour are unchanged. |
| Pieces.Piece.Move | quoridor/piece.py:26-29 | The piece takes the new row and column, its centre follows, and its colour is unchanged. |
| Pieces.Piece.DeepCopy | quoridor/ai.py:121 | A deep copy is a new object with the same fields, and it and the original compare equal both ways. |
| Pieces.EqualsIsStructural | quoridor/piece.py:34-39 | Piece equality holds exactly when row, column and colour agree, also for two distinct objects, and is false against a non-piece. |
| Pieces.Piece.Equals | quoridor/piece.py:34-39 | Definition: a piece equals a piece with the same row, column and colour, and nothing else (properties in `Pieces.EqualsIsStructural`). |
| Pieces.FirstPawnSpec | quoridor/board.py:97-102 | The row-major scan returns the first cell holding a pawn of the colour, or none when no cell does. |
| Pieces.LastPawnNext | quoridor/pathfinding.py:12-19 | One more cell of the scan: a pawn of the colour there replaces the recorded position. |
| Pieces.LastPawnSpec | quoridor/pathfinding.py:12-19 | The overwriting scan records the last cell holding a pawn of the colour, or none when no cell does. |
| Pieces.ScansFindOnlyPawn | quoridor/pathfinding.py:12-19 | With a single pawn of the colour, both scans find it. |
| Pathfinding.AdjacentInBounds | quoridor/pathfinding.py:29-39 | Neighbours are cells of the board. |
| Pathfinding.Adjacent | quoridor/pathfinding.py:29-39 | Definition: q is the on-board cell above, below, left or right of p, and neither anchor that could close that edge is placed (properties in `Pathfinding.AdjacentInBounds`, `Pathfinding.AdjacentSymmetric`, `Pathfinding.AdjacentAntitone` and `Pathfinding.Neighbors`). |
| Pathfinding.AdjacentSymmetric | quoridor/pathfinding.py:29-39 | The same anchors close an edge in both directions, so the neighbour relation is symmetric. |
| Pathfinding.AdjacentAntitone | quoridor/pathfinding.py:29-39 | Adding wall anchors never opens an edge. |
| Pathfinding.Neighbors | quoridor/pathfinding.py:22-41 | The list holds exactly the open orthogonal neighbours (up, down, left, right), at most four and none twice. |
| Pathfinding.ReachWithinBoard | quoridor/pathfinding.py:53-55 | Breadth-first layers from a cell of the board stay on the board. |
| Pathfinding.ReachMonotone | quoridor/pathfinding.py:53-55 | Later breadth-first layers contain the earlier ones. |
| Pathfinding.ReachStable | quoridor/pathfinding.py:53-55 | Once a round adds no cell, no later round does. |
| Pathfinding.WalkEndInReach | quoridor/pathfinding.py:53-55 | The end of a walk of n steps lies in layer n. |
| Pathfinding.ReachHasWalk | quoridor/pathfinding.py:53-55 | Every cell of layer n ends a walk of at most n steps from the source. |
| Pathfinding.FirstGoalLayerIsShortest | quoridor/pathfinding.py:53-55 | The first layer that meets the goal row gives the length of a shortest walk to it. |
| Pathfinding.StableWithoutGoalUnreachable | quoridor/pathfinding.py:53-55 | When the layers stop growing without meeting the row, no walk reaches the row. |
| Pathfinding.DistFromCorrect | quoridor/pathfinding.py:53-55 | Scanning the layers from k on yields a shortest walk's length, or none exactly when the row is unreachable. |
| Pathfinding.DistCorrect | quoridor/pathfinding.py:53-55 | The distance to a row exists exactly when some walk reaches the row, and it is then the length of a shortest walk. |
| Pathfinding.ShortestNodesIs | quoridor/board.py:205-206 | A walk of n nodes to the row, with none shorter, fixes the shortest path's node count at n. |
| Pathfinding.Expand | quoridor/pathfinding.py:53-55 | One search round adds to the visited set every open neighbour of the frontier. |
| Pathfinding.ShortestPathNodes | quoridor/board.py:205-206 | The breadth-first search returns the node count, start included, of a shortest walk to the row, and 0 when there is none. |
| Pathfinding.ShortestNodesPositive | quoridor/board.py:205-206 | The node count is positive exactly when the row can be reached. |
| Pathfinding.ScanPawns | quoridor/pathfinding.py:12-19 | The nested loop records the last black pawn and the last white pawn in row-major order. |
| Pathfinding.PathExists | quoridor/pathfinding.py:7-57 | The result is true exactly when black's cell reaches row ROWS-1 and white's cell reaches row 0, by walks over open edges, pawns being no obstacle. |
| Pathfinding.WalkAntitone | quoridor/pathfinding.py:29-39 | A walk under more walls is a walk under fewer. |
| Pathfinding.BothReachGoalsAntitone | quoridor/pathfinding.py:29-39 | Adding walls never creates a path, so once the path test fails it keeps failing. |
| Pathfinding.EmptyBoardReachesEveryRow | tests/test_pathfinding.py:52-53 | On the empty board every cell reaches every row, straight along its column. |
| Pathfinding.EmptyBoardPathExists | tests/test_pathfinding.py:52-53 | The path test holds on the empty board wherever the pawns stand. |
| Pathfinding.BoxedWhiteCannotReachGoal | tests/test_pathfinding.py:55-71 | With walls (8,4,v), (7,4,h) and (8,6,v) the white pawn on (8,4) cannot reach row 0, so the path test fails. |
| Pathfinding.WallAboveLeavesTwoNeighbours | tests/test_pathfinding.py:17-32 | Under the horizontal wall (7,4), the cell (8,4) has exactly the neighbours (8,3) and (8,5). |
| Pathfinding.WallBesideLeavesTwoNeighbours | tests/test_pathfinding.py:34-49 | Beside the vertical wall (1,4), the cell (0,4) has exactly the neighbours (1,4) and (0,5). |
| Pathfinding.ShortestFromBlackStart | tests/test_pathfinding.py:73-78 | Black's shortest path from (0,4) on the empty board has ROWS nodes. |
| Pathfinding.ShortestAfterWallBelowBlack | tests/test_pathfinding.py:81-83 | After the wall (0,4,h), black's shortest path from (0,4) has ROWS + 1 nodes. |
| BoardRules.PawnPos | quoridor/board.py:97-102 | The position found for a colour is a board cell holding that colour's pawn. |
| BoardRules.ConflictSetIsConflicts | quoridor/board.py:82-92 | The walls pruned on placing w are w itself, its two same-orientation neighbours and its one crossing wall, and no other. |
| BoardRules.ConflictSet | quoridor/board.py:82-92 | Definition: the wall itself, its two same-orientation neighbours and the crossing wall of the other orientation (properties in `BoardRules.ConflictSetIsConflicts`). |
| BoardRules.PlaceWallState | quoridor/board.py:74-92 | Definition: the anchor is added to its orientation's set and the conflict set leaves the legal set (properties in `BoardRules.PlaceWallKeepsConsistent`). |
| BoardRules.LegalWall | quoridor/board.py:117-134 | Definition: the wall is still legal and with its anchor added both pawns reach their goal rows (properties in `BoardRules.LegalWallKeepsPaths`). |
| BoardRules.ConflictSymmetric | quoridor/board.py:82-92 | Two walls conflict whichever of them is placed. |
| BoardRules.PlacedAfterAdd | quoridor/board.py:74-78 | After adding w's anchor, the placed walls are the former ones plus w. |
| BoardRules.AddWall | quoridor/board.py:74-78 | Definition: the anchor joins the set of its orientation (properties in `BoardRules.PlacedAfterAdd`). |
| BoardRules.WithoutAnchor | quoridor/board.py:117-134 | Definition: the anchor leaves the set of its orientation, what is_valid_wall's remove does (properties in `BoardRules.SpeculativeAddRestores`). |
| BoardRules.GoalsReachable | quoridor/board.py:121-132 | Definition: path_exists on the board's walls and pawns, both goal rows reachable (properties in `BoardRules.LegalWallKeepsPaths` and `BoardRules.MoveKeepsGoalsReachable`). |
| BoardRules.PlaceWallKeepsConsistent | quoridor/board.py:74-92 | Placing a legal wall keeps the legal set inside the universe and free of conflicts with every placed wall, the new one included. |
| BoardRules.SpeculativeAddRestores | quoridor/board.py:117-134 | A still-legal wall is not yet placed, so removing the speculative anchor restores the wall sets exactly. |
| BoardRules.ScansAgree | quoridor/pathfinding.py:12-19 | With one pawn per colour, the path test's last-match scan and the board's first-match lookup find the same pawns. |
| BoardRules.LegalWallKeepsPaths | quoridor/board.py:117-134 | A wall that is_valid_wall accepts leaves both pawns a path once it is placed. |
| BoardRules.WallBetweenMatchesAdjacent | quoridor/board.py:182-198 | Between orthogonal neighbours, is_wall_between is false exactly when the path oracle's neighbour relation joins them. |
| BoardRules.IsWallBetween | quoridor/board.py:182-198 | Definition: the same-row or same-column case analysis on the two anchors that close an edge, false for cells in neither (properties in `BoardRules.WallBetweenMatchesAdjacent`, `BoardRules.WallBetweenSymmetric`, `BoardRules.WallBetweenOnlyNeighbours` and `BoardRules.AnchorsBlock`). |
| BoardRules.WallBetweenSymmetric | quoridor/board.py:182-198 | is_wall_between gives the same answer with its endpoints swapped. |
| BoardRules.WallBetweenOnlyNeighbours | quoridor/board.py:182-198 | Cells in different rows and different columns are never separated by a wall. |
| BoardRules.AnchorsBlock | quoridor/board.py:182-198 | A horizontal anchor (r,c) blocks the steps between rows r and r+1 in columns c and c+1. A vertical anchor (r,c) blocks the steps between columns c-1 and c in rows r-1 and r. |
| BoardRules.LandingsUpTo | quoridor/board.py:145-179 | The destinations collected over the first k directions are empty cells of the board. |
| BoardRules.Landings | quoridor/board.py:146-179 | Definition: the open empty neighbour; over an occupied one, the open cell beyond; failing that, the open cells beside it (properties in `BoardRules.LandingIsOneOrTwoSteps`). |
| BoardRules.ValidMoves | quoridor/board.py:139-180 | Every destination is an empty cell of the board. |
| BoardRules.ValidMovesByDirection | quoridor/board.py:144-145 | The destinations are the union of the landings in the four directions. |
| BoardRules.ValidMovesAreEmptyCells | quoridor/board.py:139-180 | Destinations are empty cells of the board, so never the pawn's own cell. |
| BoardRules.ValidMoveIsOneOrTwoSteps | quoridor/board.py:145-179 | Every destination is one open edge from the pawn, or two open edges through an occupied cell (jump or slide). |
| BoardRules.LandingIsOneOrTwoSteps | quoridor/board.py:158-179 | A landing of one direction is a step, a straight jump or a slide beside the blocking pawn, each over open edges. |
| BoardRules.SwapCells | quoridor/board.py:71 | move_piece exchanges the contents of the two cells and leaves every other cell alone. |
| BoardRules.SetCell | quoridor/board.py:71 | Definition: one cell of the grid replaced (used by `BoardRules.Swap`). |
| BoardRules.Swap | quoridor/board.py:71 | Definition: the tuple assignment exchanging two cells (properties in `BoardRules.SwapCells` and `BoardRules.SwapKeepsPawns`). |
| BoardRules.MovePieceState | quoridor/board.py:70-72 | Definition: the grid with the two cells swapped, walls and counters untouched (properties in `BoardRules.SwapCells` and `BoardRules.MovedPawns`). |
| BoardRules.SwapKeepsPawns | quoridor/board.py:70-72 | Moving a pawn onto an empty cell keeps one pawn per colour; the moved pawn is found on its new cell and the other where it was. |
| BoardRules.MovedPawns | quoridor/board.py:70-72 | After the side's pawn moves to an empty cell, it stands there and the opponent's pawn is unmoved. |
| BoardRules.MoveKeepsGoalsReachable | quoridor/board.py:139-180 | Moving to any destination of get_valid_moves keeps both goal rows reachable. |
| BoardRules.WinnerIsGoalRow | quoridor/board.py:104-115 | With the pawns placed, WHITE has won exactly when its pawn is on row 0. BLACK has won exactly when white has not and black's pawn is on row ROWS-1. |
| BoardRules.WinnerOf | quoridor/board.py:104-115 | Definition: White when a white pawn is on row 0, checked first, else Black when a black pawn is on the last row (properties in `BoardRules.WinnerIsGoalRow`). |
| BoardRules.NearInAdd | quoridor/board.py:220-223 | Looking at one more anchor raises the blockade count by one exactly when the anchor is within one row and one column. |
| BoardRules.PathLength | quoridor/board.py:205-206 | Definition: the node count of the pawn's shortest path to its goal row, 0 without one (properties in `Pathfinding.ShortestNodesIs`). |
| BoardRules.NearAnchors | quoridor/board.py:220-223 | Definition: the placed anchors within one row and one column of the opponent's pawn, each counted once (properties in `BoardRules.NearInAdd` and `Boards.Board.Blockade`). |
| BoardRules.Progress | quoridor/board.py:225-226 | Definition: black's row, and ROWS minus white's row (properties in `BoardRules.FeaturesAntisymmetric`). |
| BoardRules.Combine | quoridor/board.py:233 | Definition: the weighted sum of the four features (properties in `Training.StandardIsWeighted` and `Training.TrainedScoreUsesOwnWeights`). |
| BoardRules.FeaturesAntisymmetric | quoridor/board.py:213-231 | The wall and forward terms change sign with the side, and the two sides' path terms sum to -0.6 times the total path length. |
| BoardRules.FeaturesOf | quoridor/board.py:213-231 | Definition: the path difference 1.2 and 1.8 weighted, the wall difference, 2.5 per wall near the opponent and the progress difference (properties in `BoardRules.FeaturesAntisymmetric` and `BoardRules.NearInAdd`). |
| BoardRules.StandardScore | quoridor/board.py:200-235 | Definition: 10000 on a win, -10000 on a loss, else the features weighted 9.35, 7, 5 and 3 (properties in `Training.StandardIsWeighted`). |
| BoardRules.WallUniverseMembers | quoridor/board.py:27-34 | The initial legal set holds exactly the horizontal anchors on rows 0..ROWS-2 and columns 0..COLS-2, and the vertical anchors on rows 1..ROWS-1 and columns 1..COLS-1. |
| BoardRules.WallOrder | quoridor/board.py:27-34 | The walls in the order precompute_valid_walls adds them, 2 (ROWS-1)(COLS-1) of them. |
| BoardRules.WallOrderIsUniverse | quoridor/board.py:27-34 | That order lists exactly the walls of the universe. |
| BoardRules.WallOrderDistinct | quoridor/board.py:27-34 | No wall occurs twice in that order. |
| BoardRules.UniverseSize | quoridor/board.py:27-34 | The universe has as many walls as the order lists, (ROWS-1)^2 + (COLS-1)^2. |
| BoardRules.InitialGridCells | quoridor/board.py:18-25 | The new grid is ROWS x COLS with black's pawn on (0, COLS//2), white's on (ROWS-1, COLS//2) and every other cell empty. |
| BoardRules.InitialGrid | quoridor/board.py:18-25 | Definition: all cells empty but black on (0, 4) and white on (8, 4) (properties in `BoardRules.InitialGridCells`). |
| BoardRules.InitialState | quoridor/board.py:9-16 | Definition: the opening grid, no walls placed, the whole universe legal and ten walls each (properties in `BoardRules.InitialStateFacts`). |
| BoardRules.InitialStateFacts | quoridor/board.py:9-16 | The opening board has its pawns on their starting cells, no winner, a valid wall bookkeeping and both goals reachable. |
| BoardRules.BlackOpeningLandings | tests/test_board.py:62-69 | From (0,4) at the opening, the directions yield (0,5), (0,3), (1,4) and nothing, in that order. |
| BoardRules.WhiteOpeningLandings | tests/test_board.py:62-69 | From (8,4) at the opening, the directions yield (8,5), (8,3), nothing and (7,4), in that order. |
| BoardRules.OpeningMoves | tests/test_board.py:62-69 | At the opening black may move to exactly {(1,4),(0,3),(0,5)} and white to exactly {(7,4),(8,3),(8,5)}. |
| BoardRules.FaceOffLandings | tests/test_game_rules.py:77-138 | White on (8,4) facing black on (8,5) jumps to (8,6). After the wall (8,6,v), white slides to (7,5) instead and cannot jump. |
| BoardRules.FaceOffOtherLandings | tests/test_game_rules.py:98-117 | No other direction reaches (8,6) once the jump is walled off. |
| BoardRules.JumpAndSidewaysMoves | tests/test_game_rules.py:77-138 | (8,6) is a destination before the wall and not after it, and (7,5) is one after it. |
| Boards.Board.constructor | quoridor/board.py:9-16 | A new Board is the opening state with the standard evaluator, and its legal set has (ROWS-1)^2 + (COLS-1)^2 walls. |
| Boards.Board.TrainingBoard | training.py:9-11 | A TrainingBoard is the opening state evaluated with the given per-side weights. |
| Boards.Board.CreateBoard | quoridor/board.py:18-25 | The grid becomes the opening grid and the other fields are unchanged. |
| Boards.Board.PrecomputeValidWalls | quoridor/board.py:27-34 | The legal set gains every wall of the universe, and from empty holds exactly (ROWS-1)^2 + (COLS-1)^2 walls. |
| Boards.Board.MovePiece | quoridor/board.py:70-72 | The board becomes the state with the two cells' contents exchanged. |
| Boards.Board.PlaceWall | quoridor/board.py:74-80 | The anchor joins its orientation's set and the conflicting walls leave the legal set; the counters are untouched. |
| Boards.Board.RemoveInvalidWalls | quoridor/board.py:82-92 | Only the legal set changes: it loses exactly the conflict set of w. |
| Boards.Board.GetPiece | quoridor/board.py:94-95 | Returns the content of the cell. |
| Boards.Board.GetValidWalls | quoridor/board.py:136-137 | Returns the legal set itself. |
| Boards.Board.GetPieceByColor | quoridor/board.py:97-102 | Returns the first cell in row-major order holding the colour's pawn, or none. |
| Boards.Board.Winner | quoridor/board.py:104-115 | Returns WHITE if a white pawn is on row 0 (checked first), else BLACK if a black pawn is on row ROWS-1, else none. |
| Boards.Board.IsValidWall | quoridor/board.py:117-134 | The answer is false for a wall no longer legal, and otherwise whether both pawns still have a path with its anchor added. The wall sets lose the tried anchor, as the source's add, test and remove leaves them; on a board whose placed walls do not conflict with a legal one, that is the state it started in. |
| Boards.Board.GetValidMoves | quoridor/board.py:139-180 | Returns the pawn's destinations over the four directions. |
| Boards.Board.DirectionMoves | quoridor/board.py:146-179 | The destinations in one direction: the open empty neighbour; else the jump over the pawn if open and empty; else the open empty cells beside that pawn. |
| Boards.Board.Blockade | quoridor/board.py:220-223 | The loop adds 2.5 per distinct placed anchor within one row and one column of the opponent's pawn. |
| Boards.Board.Evaluate | quoridor/board.py:200-235 | A plain Board scores 10000 if the side has won and -10000 if it has lost, else 9.35 path_diff + 7 wall_bonus + 5 blockade + 3 forward. A TrainingBoard gives the weighted score. |
| Training.WeightsFor | training.py:14-17 | WHITE's perspective uses the first weights and BLACK's the second. |
| Training.TrainedScore | training.py:13-53 | Definition: +inf on a win, -inf on a loss, else the features weighted by the side's own genome (properties in `Training.TrainedScoreAtEnd` and `Training.TrainedScoreUsesOwnWeights`). |
| Training.Evaluation | quoridor/ai.py:13 | Definition: what `board.evaluate(color)` returns, by the board's kind, the standard or the trained score (used by `Search.AI.Negamax` and `Boards.Board.Evaluate`). |
| Training.TrainedScoreAtEnd | training.py:26-29 | A won game scores +inf for the winner and -inf for the loser; an unfinished game scores a finite value. |
| Training.TrainedScoreUsesOwnWeights | training.py:14-17 | A side's score does not depend on the other side's weights. |
| Training.StandardIsWeighted | training.py:51 | Board.evaluate is the weighted score with weights (9.35, 7, 5, 3) on every unfinished position, and 10000 or -10000 when the game is over. |
| GameTrees.BestFromIsMaximum | quoridor/ai.py:25-31 | The best negated child value from index i on bounds every such child and is one of them, or -inf when there are none. |
| GameTrees.Negamax | quoridor/ai.py:11-42 | Definition, the reference the search is proved against: a leaf's score, or the best negated child value, -inf without children (properties in `GameTrees.NegamaxIsMaximum`). |
| GameTrees.AlphaBeta | quoridor/ai.py:11-42 | Definition: a leaf's score, or the scan of the children from best value -inf and no best child (properties in `GameTrees.AlphaBetaIsFailSoft` and `GameTrees.RootWindowIsExact`). |
| GameTrees.Scan | quoridor/ai.py:25-35 | Definition: the loop, each child searched with the negated window, a strictly better value replacing the best, alpha raised, and a stop once beta <= alpha (properties in `GameTrees.ScanIsFailSoft`). |
| GameTrees.NegamaxIsMaximum | quoridor/ai.py:18-31 | A node's unpruned value is the maximum of its negated child values, and -inf with no children. |
| GameTrees.ScanUnfold | quoridor/ai.py:25-35 | One loop iteration: negate the child's search in the window (-beta, -alpha), keep it only if strictly better, raise alpha, and stop once beta <= alpha. |
| GameTrees.AlphaBetaIsFailSoft | quoridor/ai.py:25-35 | For every window alpha < beta, the pruned value is exact inside the window. At or below alpha it is an upper bound of the true value; at or above beta it is a lower bound. |
| GameTrees.NegatedFailSoft | quoridor/ai.py:26 | A child's fail-soft bounds in (-beta, -alpha) become the parent's bounds in (alpha, beta) after negation. |
| GameTrees.ScanIsFailSoft | quoridor/ai.py:25-35 | The loop from any child on, entered with its invariant, returns a fail-soft value for the node. |
| GameTrees.RootWindowIsExact | quoridor/ai.py:11-42 | With the window (-inf, +inf) the pruned value equals plain negamax. |
| GameTrees.RootChoosesFirstBest | quoridor/ai.py:27-30 | With the root window, the chosen child is the first one attaining the node's value. None is chosen exactly when every child is worth -inf, with no children in particular. |
| Search.CellsBefore | quoridor/ai.py:67 | The destinations listed in row-major order all belong to the set. |
| Search.CellsBeforeSpec | quoridor/ai.py:67 | The listing holds exactly the board cells of the set below the bound, in strictly increasing row-major order. |
| Search.KeptWallsMembers | quoridor/ai.py:100-114 | A wall is listed exactly when it is visited, still in the given legal set, and kept by the heuristics. |
| Search.Manhattan | quoridor/ai.py:104-105 | Definition: the distance |row - pawn row| + |col - pawn col| of heuristic 1 (used by `Search.FilteredWallsAreNearPawns`). |
| Search.ProbesNeighbour | quoridor/ai.py:110-111 | Definition: heuristic 2 as written, tuple probes in the set of walls (always false, by `Walls.TupleNeverInWallSet`). |
| Search.KeepWall | quoridor/ai.py:103-113 | Definition: heuristic 1 for either pawn or heuristic 2 (properties in `Search.KeptWallsMembers` and `Search.FilteredWallsAreNearPawns`). |
| Search.KeptWalls | quoridor/ai.py:100-114 | Definition: the walls of a list that are in the given set and pass a heuristic, in list order (properties in `Search.KeptWallsMembers` and `Search.KeptWallsLength`). |
| Search.FilteredWalls | quoridor/ai.py:93-114 | Definition: the kept walls of the universe's listing, for the side's and the opponent's pawns (properties in `Search.FilteredWallsAreNearPawns` and `Search.FilterAtStart`). |
| Search.KeptWallsLength | quoridor/ai.py:98-114 | The filter lists at most the walls it visits, and fewer once one is dropped. |
| Search.FilteredWallsAreNearPawns | quoridor/ai.py:93-114 | filter_walls keeps exactly the legal walls whose anchor is within Manhattan distance 3 of either pawn. |
| Search.FilterAtStart | tests/test_ai.py:26-32 | On the opening board the filter keeps some walls but not all, and drops the wall (0,0,h). |
| Search.PawnChildren | quoridor/ai.py:67-71 | One child per listed destination. |
| Search.WallsLeft | quoridor/ai.py:73-76 | Definition: the count of walls the side still holds, whose zero skips the wall children (used by `Search.Children` and `Search.ChildAt`). |
| Search.MoveOrder | quoridor/ai.py:67 | Definition: the row-major listing of the destination set that the pawn loop visits (properties in `Search.CellsBeforeSpec`). |
| Search.WallChildren | quoridor/ai.py:82-88 | Definition: for each filtered wall in turn that is_valid_wall accepts, the copy with the wall placed (properties in `Search.WallChildAt` and `Search.WallChildrenAreChildren`). |
| Search.CopyState | quoridor/ai.py:117-130 | Definition: partial_deepcopy's copy has the same grid, wall sets, legal set and counters, on a plain Board for the AI (properties in `Search.AI.PartialDeepcopy`). |
| Search.PawnChild | quoridor/ai.py:67-71 | Definition: the copy with the side's pawn moved to the destination (properties in `Search.PawnChildIsChild`). |
| Search.SimulatedWall | quoridor/ai.py:52-59 | Definition: the wall placed and the side's count one lower (properties in `Search.WallChildIsChild`). |
| Search.Children | quoridor/ai.py:61-90 | Definition: the pawn children in destination order, then, when the side has walls, the children of the filtered walls that are legal (properties in `Search.ChildAt`, `Search.ChildrenAreChildren` and `Search.ChildrenKeepInvariant`). |
| Search.PawnTargets | quoridor/ai.py:64-67 | Every destination visited is a legal move of the side's pawn. |
| Search.PawnChildIsChild | quoridor/ai.py:67-71 | The copy with the pawn moved to a legal destination is a child reached by that move. |
| Search.WallChildIsChild | quoridor/ai.py:82-88 | The copy with a filtered legal wall placed and one wall taken from the side is a child reached by that wall. |
| Search.WallChildrenAreChildren | quoridor/ai.py:82-88 | Each wall child was reached by a visited wall that is_valid_wall accepted, and it is the copy with that wall placed. |
| Search.PawnChildAt | quoridor/ai.py:67-71 | The first children are the pawn moves, in destination order. |
| Search.WallChildAt | quoridor/ai.py:73-88 | The remaining children are the wall children, and exist only when the side has walls left. |
| Search.ChildAt | quoridor/ai.py:61-90 | A child is a pawn move exactly when it comes before the wall children. A pawn child is the copy with the pawn moved. A wall child has its wall filtered and legal, is placed, and costs the side one wall. |
| Search.ChildrenAreChildren | quoridor/ai.py:61-90 | Every generated child is a pawn move or a wall placement as described. |
| Search.PawnMovesComeFirst | quoridor/ai.py:61-90 | No wall child precedes a pawn child. |
| Search.ChildrenKeepInvariant | quoridor/ai.py:61-90 | Every child keeps the board invariant and the wall bookkeeping, and keeps both goals reachable when the parent had them. |
| Search.ChildrenSearchable | quoridor/ai.py:61-90 | All the children of a searchable board can be searched in turn. |
| Search.GameTreeNode | quoridor/ai.py:12-26 | An unfinished position with depth left is a node over its children's trees at depth - 1, with the other side to move. |
| Search.GameTree | quoridor/ai.py:12-26 | Definition: a leaf with the mover's evaluation at depth 0 or after a win, else a node of the children's trees for the other side (properties in `Search.GameTreeNode`, `Search.GameTreeShape` and `Search.SearchIsExact`). |
| Search.SubTrees | quoridor/ai.py:25-26 | Definition: the trees of the children's positions at one depth less, in order (keeps the length of the children, the recursion of `Search.GameTree`). |
| Search.GameTreeShape | quoridor/ai.py:12-26 | Such a position's tree is a node with one subtree per generated child. |
| Search.SearchIsExact | quoridor/ai.py:11-42 | From any searchable board, the root window gives the unpruned value, and the chosen child is the first one attaining it. |
| Search.AI.constructor | quoridor/ai.py:7-8 | An AI stores its search depth and which copy it makes (AI or TrainingAI). |
| Search.AI.PartialDeepcopy | quoridor/ai.py:117-130 | A new board with the same grid, wall sets, legal walls and counters. The AI's copy has the plain evaluator and TrainingAI's (training.py:67-80) keeps the weights. |
| Search.AI.SimulatePieceMove | quoridor/ai.py:47-50 | Moves the pawn on the given board and returns that same board. |
| Search.AI.SimulateWall | quoridor/ai.py:52-59 | Places the wall and takes one wall from the side only, returning the same board. |
| Search.AI.FilterWalls | quoridor/ai.py:93-114 | For a set of walls of the universe (every board's legal set is one), the loop lists exactly the walls that filter_walls keeps, in visiting order. |
| Search.AI.GetAllMoves | quoridor/ai.py:61-90 | Returns fresh boards matching the generated children in order, and leaves the parent board as it was. |
| Search.AI.PawnMoves | quoridor/ai.py:67-71 | One fresh copy per destination, in order, each with only the side's pawn moved there. |
| Search.AI.PawnMove | quoridor/ai.py:68-71 | A fresh copy with the side's pawn moved to the destination. |
| Search.AI.WallMoves | quoridor/ai.py:82-88 | One fresh copy per visited wall that is_valid_wall accepts, with the wall placed; the parent board ends as it started. |
| Search.AI.Negamax | quoridor/ai.py:11-42 | Returns the alpha-beta value of the tree of generated children with the parent board unchanged. At depth 0 or on a won board it returns the board itself and no action; otherwise the chosen child's board and action, or none. |
| Search.AI.SearchChild | quoridor/ai.py:26 | The child's value is minus its search one level down with the window (-beta, -alpha) and the colours swapped. |
| Search.AI.SearchMoves | quoridor/ai.py:25-42 | The loop over the children returns the node's alpha-beta value with the first strictly best child's board and action, or none. |
| Search.AI.NegamaxOn | quoridor/ai.py:12-22 | negamax from a given position: the leaf is evaluated for the side to move, and a node is searched over its generated children. |
| Games.ChangeTurnState | quoridor/game.py:98-103 | The other side is to move and the cached moves are dropped; the board and the selection stay. |
| Games.ChangeTurnTwice | quoridor/game.py:98-103 | Changing the turn twice gives the move back to the same side. |
| Games.HasWalls | quoridor/game.py:77-81 | Definition: the side's wall count is positive (used by `Games.PlaceWallIff`). |
| Games.PickState | quoridor/game.py:56-63 | Definition: a click on the mover's pawn selects it and caches its moves; any other click changes nothing (properties in `Games.PickSelectsOwnPawn`). |
| Games.MoveState | quoridor/game.py:65-75 | Definition: an empty cached target receives the selected pawn, which stays selected, and the turn passes (properties in `Games.MoveSucceedsIff`). |
| Games.SelectState | quoridor/game.py:44-63 | Definition: with a selection, the move, or on failure a fresh pick answering false; without one, the pick (properties in `Games.FailedMoveReselects` and `Games.SelectKeepsConsistent`). |
| Games.PlaceWallStep | quoridor/game.py:83-96 | Definition: is_valid_wall's effect, then on a legal wall with walls left the wall placed, the count lowered and the turn passed (properties in `Games.PlaceWallIff`). |
| Games.InitialGameConsistent | quoridor/game.py:13-20 | The opening game has a valid board with both goals reachable. |
| Games.InitialGame | quoridor/game.py:13-20 | Definition: a fresh board, WHITE to move, nothing selected, no cached moves (properties in `Games.InitialGameConsistent`). |
| Games.PickSelectsOwnPawn | quoridor/game.py:56-63 | With nothing selected, a click succeeds exactly on a pawn of the side to move. It then selects the pawn and caches its moves; otherwise nothing changes. |
| Games.MoveSucceedsIff | quoridor/game.py:65-75 | A move succeeds exactly when the target is empty and among the cached moves. Then the piece is moved, the turn passes, and the cache is emptied. |
| Games.FailedMoveReselects | quoridor/game.py:46-52 | A failed move keeps the board and the turn, and selects the clicked cell only if it holds a pawn of the side to move. |
| Games.PlaceWallIff | quoridor/game.py:83-96 | A wall placement succeeds exactly when is_valid_wall holds and the mover has walls left. Then the wall is placed, only the mover's count drops by one, and the turn passes; otherwise nothing changes. |
| Games.SelectKeepsConsistent | quoridor/game.py:44-63 | A click keeps the board valid with both goals reachable. |
| Games.ChangeTurnKeepsConsistent | quoridor/game.py:98-103 | Emptying the cached moves makes a game consistent whenever its board is valid, both goals are reachable and the selection is on the board. |
| Games.MoveKeepsGameConsistent | quoridor/game.py:65-75 | A move of the selected pawn keeps the game consistent. |
| Games.AiMoveKeepsConsistent | quoridor/game.py:122-125 | Replacing the board by any child the search generates for the side to move, and passing the turn, keeps the game consistent. |
| Games.PlaceWallKeepsGameConsistent | quoridor/game.py:83-96 | A wall placement keeps the board valid with both goals reachable. |
| Games.WallPlaced | quoridor/game.py:86-90 | Definition: the wall placed and the mover's count one lower (properties in `Games.PlaceWallIff`). |
| Games.BoardConsistent | quoridor/game.py:44-103 | Definition: the board part of the game invariant, a valid board, both goals reachable and an in-bounds selection (used by `Games.Game.ChangeTurn`). |
| Games.Consistent | quoridor/game.py:44-103 | Definition: the game invariant, the board part and cached moves that belong to the selected pawn of the side to move (kept by every step, `Games.SelectKeepsConsistent` and the rows around it). |
| Games.OpeningClicks | tests/test_game_rules.py:24-37 | At the opening, a click on black's pawn selects nothing while WHITE is to move. Clicking white's pawn on (8,4) selects it and caches {(7,4),(8,3),(8,5)}. Then clicking (7,4) moves it there and passes the turn to BLACK. |
| Games.TranslateRowCoord | quoridor/game.py:140-141 | The character with code n + 96. |
| Games.ColumnLetters | quoridor/game.py:140-141 | The columns 1..COLS map to letters between 'a' and 'i', 1 to 'a' and COLS to 'i'. |
| Games.SquareNotation | quoridor/game.py:136-138 | Definition: the column letter, then the rank 9 - row (properties in `Games.SquareNotationRoundTrip`). |
| Games.WallNotation | quoridor/game.py:132-135 | Definition: the anchor square's notation, then h or v (properties in `Games.WallNotationRoundTrip`). |
| Games.SquareNotationRoundTrip | quoridor/game.py:136-138 | A square's notation (column letter, rank 9 - row) determines the square: `Games.ParseSquare`, an inverse written only to state this and not in the program, reads it back. |
| Games.WallNotationRoundTrip | quoridor/game.py:132-135 | A wall's notation (anchor square, then h or v) determines the wall: `Games.ParseWall`, an inverse written only to state this and not in the program, reads it back. |
| Games.Game.constructor | quoridor/game.py:9-20 | A new game has a fresh opening board, WHITE to move, nothing selected and no cached moves. |
| Games.Game.SelectSquare | quoridor/game.py:44-63 | A click takes the step the state machine describes, re-calling itself once after a failed move, and keeps the game valid. |
| Games.Game.MovePiece | quoridor/game.py:65-75 | The move step of the state machine on the game's fields and board; the game stays valid. |
| Games.Game.PlayerHasWalls | quoridor/game.py:77-81 | Whether the side to move has a positive wall count. |
| Games.Game.PlaceWall | quoridor/game.py:83-96 | The wall step of the state machine, keeping the game valid. |
| Games.Game.ChangeTurn | quoridor/game.py:98-103 | The turn flips and the cached moves are cleared; from a valid board and an in-bounds selection the game is valid, whatever the stale cache held. |
| Games.Game.AiMove | quoridor/game.py:122-125 | The board becomes the chosen one and the turn flips; the game stays valid. The chosen board is a child the search generates for the side to move, or a board in the current position, which negamax returns at a leaf (after a win, machine_learning.py:48-56 still asks the other side to move). |
| Evolution.GenerateRandomWeights | machine_learning.py:12-14 | A new vector of four genes holding the draws. |
| Evolution.WinRate | machine_learning.py:79 | The first agent's share of the games, between 0 and 1, and 0 when none were played. |
| Evolution.Scores | machine_learning.py:72-80 | Definition: each member with the win rate of its games, in population order (properties in `Evolution.EvaluatePopulation`). |
| Evolution.RankByScoreSpec | machine_learning.py:83 | The ranking is sorted by decreasing score and a permutation of the entries. It keeps the entries with equal scores in their original order. |
| Evolution.RankByScore | machine_learning.py:83 | Definition: insertion of each member, in population order, behind every member scoring at least as well (properties in `Evolution.RankByScoreSpec` and `Evolution.StableSortIsUnique`). |
| Evolution.StableSortIsUnique | machine_learning.py:83 | Two lists sorted by decreasing score with the same per-score order are equal, so the stable sort is fully determined. |
| Evolution.EvaluatePopulation | machine_learning.py:72-83 | The members paired with their win rates, sorted stably by decreasing win rate: a permutation of the scores, each between 0 and 1. |
| Evolution.Truncate | machine_learning.py:87 | Python's int() of a real rounds toward zero. |
| Evolution.SelectTopPerformers | machine_learning.py:86-88 | Keeps max(2, int(len * ratio)) members, or all of them if there are fewer. |
| Evolution.RetainLength | machine_learning.py:86-88 | Definition: max(2, int(len * ratio)) (values in `Evolution.DefaultRetainLengths`). |
| Evolution.TopPerformersLead | machine_learning.py:86-88 | The survivors are the leading members of the ranking, in its order, with their scores dropped. They are at least two when the ranking has two, and none scores below a dropped member. |
| Evolution.DefaultRetainLengths | machine_learning.py:86-88 | With the ratio 0.4, populations of 50, 10 and 4 keep 20, 4 and 2. |
| Evolution.MutationChangesAtMostOne | machine_learning.py:92-96 | Mutation keeps the length and changes at most gene idx, and only when the coin is below the rate. The gene is then scaled by a factor in [0.8, 1.2]. |
| Evolution.Mutated | machine_learning.py:92-96 | Definition: when the coin falls below the rate, the chosen gene times the factor (properties in `Evolution.MutationChangesAtMostOne`). |
| Evolution.MutateWeights | machine_learning.py:92-96 | Mutates the array in place and returns that same array. |
| Evolution.Spliced | machine_learning.py:100-101 | The child's length is the split plus what parent 2 has beyond the split. |
| Evolution.SplicedGenes | machine_learning.py:100-101 | Genes before the split come from parent 1 and from the split on from parent 2; equal-length parents give a child of that length. |
| Evolution.Crossover | machine_learning.py:99-102 | A fresh array holding the splice of the parents, mutated; the parents are not written. |
| Evolution.OffspringKeepsLength | machine_learning.py:99-102 | Parents of four genes breed a child of four genes, each gene from the parent the split assigns it, the mutated one aside. |
| Evolution.Breeds | machine_learning.py:107-114 | Definition: a draw that can breed from the survivors, two distinct indices, a split inside the first parent and a gene inside the child (required by `Evolution.GenerateNextGeneration`). |
| Evolution.Offspring | machine_learning.py:99-102 | Definition: the splice of the parents at the split point, then mutated (properties in `Evolution.OffspringKeepsLength` and `Evolution.SplicedGenes`). |
| Evolution.GenerateNextGeneration | machine_learning.py:107-116 | The survivors unchanged, then fresh children up to the population size, each bred from two distinct survivors. The length is max(len(selected), population_size). |
| Mouse.GetSelectionFromMouse | main.py:9-38 | The click is invalid exactly when its row or column lies beyond the board. |
| Mouse.SquareOf | main.py:12-14 | Definition: the row y // SQUARE_SIZE and column x // SQUARE_SIZE (properties in `Mouse.SelectionContainsClick`). |
| Mouse.Inner | main.py:24-31 | Definition: a remainder at least WALL_THICKNESS from both edges of the square (properties in `Mouse.WallSlotNearLine` and `Mouse.HorizontalFirst`). |
| Mouse.SelectionContainsClick | main.py:12-14 | A selected square contains the click, and a wall slot's column (horizontal) or row (vertical) is the click's. |
| Mouse.WallSlotNearLine | main.py:24-35 | A wall slot is chosen only by a click within WALL_THICKNESS of the grid line the slot lies on. |
| Mouse.CentreAndCornersSelectSquare | main.py:24-38 | A click away from every edge of its square, or in one of its corners, selects the square. |
| Mouse.HorizontalFirst | main.py:24-28 | A click in the top band of a square, away from the corners, picks the horizontal slot above, before any vertical test. |
| Mouse.ExampleClicks | main.py:9-38 | Sample clicks on 80-pixel squares give the square (0,0), the slots (4,4,h) and (2,4,v), and an invalid click right of the board. |

## Left out

- **Rendering and input.** Drawing (`draw*`, `Game.update`, `Piece.draw`) and pygame input handling are not modelled. Neither are the `main()` loop of `main.py`, the `wall_hovered` field and `ui.py`.
- **print_move's output.** It is not modelled; the notation it prints is given by `Games.SquareNotation` and `Games.WallNotation`, with round-trip lemmas. Their inverses `Games.ParseSquare` and `Games.ParseWall` are not in the program; they exist only to state that the notation determines the move.
- **Board's `__repr__` and Piece's `__repr__`:** text output for debugging only.
- **Game's `reset`, `get_board` and `winner`:** one-line wrappers around `_init`, the board field and `Board.winner`.
- **The constants module.** `quoridor/constants.py` is not part of this model. ROWS = COLS = 9 and 10 walls per side come from the tests. SQUARE_SIZE = 80 and WALL_THICKNESS = 10 are chosen values with 2 * WALL_THICKNESS < SQUARE_SIZE. The colours are a two-valued datatype.
- **Path lengths.** The external `pathfinding` library (its A* finder and Grid) is replaced by a verified breadth-first search over the same neighbour relation. `get_cached_path` and `shortest_path` are not part of this model. Path lengths are taken as the node count of a shortest path, start included, and 0 when there is none (the length of the empty list).
- **Iteration order.** Python's set iteration order is replaced by a fixed order. Pawn destinations are visited in row-major order, and legal walls in the order `precompute_valid_walls` adds them. This affects which of several equally good children negamax picks, never the value.
- **Piece objects in the grid.** The grid holds cell values (empty, or a pawn of a colour) rather than references to `Piece` objects. `move_piece` also updates the moved piece's row and column; that update is `Pieces.Piece.Move`, modelled on its own.
- **Floating point.** Scores, weights and win rates are exact reals (9.35 as 935/100); `float("inf")` is the `PosInf` of an extended-real datatype. IEEE rounding is not modelled.
- **The progress callback of negamax:** a side channel with no effect on the result.
- **Self-play and the training loop.** `self_play` and `machine_learning.main` are not modelled: pygame clock, wall-clock timeout, console and file output. `evaluate_population` takes the counts of won and lost games for each member as a parameter.
- **Randomness.** Every numpy draw is a parameter:
  - the genes of `generate_random_weights`;
  - the mutation coin, gene index and factor;
  - the split point, and the two parent indices of each child.
- Evolution.GenerateRandomWeights: does not state that the draws lie in [0.1, 10), since that is numpy's promise about its uniform draw rather than the program's.
- Evolution.MutateWeights: requires the gene index to lie in the array when the coin is below the rate, which `np.random.randint(len(weights))` guarantees; the `ValueError` numpy raises for an empty array is not modelled.
- Evolution.GenerateNextGeneration: requires a draw per missing child that breeds from the survivors: two distinct indices in range, a split in [1, len-1], and a mutated gene within the child. `np.random.choice(..., replace=False)` raises when there are fewer than two survivors; that case is excluded rather than modelled.
- Evolution.Crossover: requires a split in [1, len(parent1) - 1], the range `np.random.randint(1, len(parent1))` draws from; the `ValueError` for a one-gene parent is not modelled.
- Games.TranslateRowCoord: requires n + 96 to be a Unicode scalar value. Python's `chr` also accepts surrogate code points, which Dafny's `char` excludes; the `ValueError` for codes outside Unicode is not modelled.
- Boards.Board.PlaceWall: requires the wall to be legal, as `set.remove` in `remove_invalid_walls` raises `KeyError` otherwise; the exception is not modelled.
- Boards.Board.RemoveInvalidWalls: requires the wall to be legal, for the same `KeyError`.
- Search.AI.SimulateWall: requires the wall to be legal on the board, for the same `KeyError`.
- Search.AI.FilterWalls: requires every wall of the set it is given to lie in the wall universe, so that the fixed listing of the universe visits all of them. Every board's legal set does (`BoardRules.WallsConsistent`), and filter_walls is only called on that set. For a set with other walls, the source would also keep those walls, and the model does not capture that.
- Pathfinding.PathExists: requires both pawns to be on the grid; without one, the program fails indexing `None`, and that path is not modelled.
- Search.AI.PartialDeepcopy: for the TrainingAI copy, requires the board to carry weights; on a plain Board the program raises `AttributeError`, which is not modelled.
- **TrainingGame.** It is not modelled as a class of its own. Its `_init` is `Game._init` with the board replaced by a TrainingBoard, which is `Boards.Board.TrainingBoard`.
- **The change_turn cache.** `change_turn` resets the cached moves to an empty dict (`{}`), which the model takes as the empty set: membership in it is false either way.
