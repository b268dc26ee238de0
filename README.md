# Othello and tic-tac-toe rule engines

This project models the rule engines of two small board games and proves
properties of them.

**Othello (`othello.py`).** The board is a 100-character string. It holds the
8x8 playing area, surrounded by a ring of `OUTER` (`?`) cells, so square
`(r, c)` sits at index `10*(r+1) + (c+1)`. The model covers:

- capture detection: `find_match` and `is_move_valid`;
- the flip transformation: `make_move`;
- move enumeration and turn passing: `get_valid_moves`, `has_any_valid_moves`,
  `next_player` and `game_over`;
- the starting position: `get_starting_board`;
- the integer evaluation terms: `weight_score`, `corner_score`, `is_corner`,
  `surrounding_pieces`, the two truncated ratios inside `mobility_score`, and
  `score2`;
- the stable-disc bookkeeping: `is_stable` and `stability_score`. These
  update the process-wide `STABLE_PIECES` sets, modelled as the class
  `StablePieces`.

The well-formedness invariant `WellFormed` says three things: the board has
100 cells, the ring is `OUTER`, and every playing square is `.`, `@` or `o`.
This invariant makes every `while` scan terminate. A scan leaves its starting
square along a direction `d` and stays on one heading (`Heading`). Different
directions therefore touch disjoint cells, so the per-direction rewrites of
`make_move` equal one simultaneous flip of every bracketed run, computed on
the original board.

**Tic-tac-toe (`tictactoe.py`).** The board is a 9-character string. The
model covers `goal_test` over the eight `UNITS`, `get_moves`, `make_move`,
the exhaustive `minimax` and `minimax_strategy`. The search terminates
because each move fills one blank. Python's `max` and `min` keep the first
extremum, so ties go to the lowest move index.

Files:

- `ascending.dfy`: strictly ascending index lists.
- `optional.dfy`: the `Option` type.
- `othello_board.dfy`: constants, the board invariant, geometry and scans along a direction.
- `othello_moves.dfy`: capture, flipping, move lists and turn passing.
- `othello_opening.dfy`: the starting position.
- `othello_scoring.dfy`: the evaluation terms.
- `othello_stability.dfy`: `is_stable` and the `STABLE_PIECES` class.
- `tictactoe.dfy`: the tic-tac-toe engine.

Where an othello.py function accumulates into variables, rewrites the board
or updates `STABLE_PIECES` in a loop, the model is a method with loop
invariants. It is proved equal to a specification function, and the
properties are proved about that function. Three loops that only compute a
value are modelled without a method: `is_move_valid`'s loop over DIRECTIONS
with its early return (othello.py:80-83) by the `exists` of `AnyBrackets`, which `IsMoveValid` uses,
`goal_test`'s loop over UNITS (tictactoe.py:29-31) by the recursive
`GoalTestFrom`, and `minimax`'s loop over the children (tictactoe.py:50-51)
by the sequence comprehension in `Children`.

## Model

| member | source | states |
|---|---|---|
| OthelloBoard.StartingBoardLayout | othello.py:51-53 | the starting board is well formed, holds WHITE on 44 and 55 and BLACK on 45 and 54, and every other playing square is EMPTY |
| OthelloBoard.StartingBoard | othello.py:51-53 | the board built row by row from the literal has 100 cells; its layout is what StartingBoardLayout states |
| OthelloBoard.RunCells | othello.py:94-96 | the cells a scan from s along d passes over all hold c, lie on the scan's side of s, and include s exactly when s holds c |
| OthelloBoard.ScanEnd | othello.py:71-72 | on a well-formed board a scan over c-cells stops inside indices 0..99, on a cell that does not hold c |
| OthelloBoard.RunStaysOnRay | othello.py:94-96 | every cell a scan along d visits has heading d from the move: it lies in the sector of d (the ray itself for N, E, S and W, a quadrant for a diagonal) |
| OthelloBoard.ScanEndOnRay | othello.py:71-72 | a scan along d also stops in the sector of d |
| OthelloBoard.RunAgrees | othello.py:89-96 | two boards that agree on the sector of d give the same run of c-cells along d |
| OthelloBoard.ScanEndAgrees | othello.py:71-72 | two boards that agree on the sector of d give the same scan end along d |
| OthelloBoard.UpdateKeepsWellFormed | othello.py:92 | writing EMPTY or a disc onto a playing square keeps the board well formed |
| OthelloBoard.ScanEndOnLine | othello.py:71-72 | a scan over c-cells stops k steps along d from its start, for some k, and every cell before that holds c |
| OthelloMoves.BracketsClosed | othello.py:64-75 | when `Brackets` holds (the condition under which find_match returns `square`), the next cell is an opponent disc on a playing square, and for some k >= 2 the cells `square + j*d` for 1 <= j < k all hold opponent discs while `square + k*d` holds p: a contiguous line of opponent discs closed by a disc of p |
| OthelloMoves.FindMatch | othello.py:64-75 | returns `square` exactly when the next cell along d is the opponent's and the opponent run ends on a player cell; otherwise None |
| OthelloMoves.IsMoveValid | othello.py:77-84 | a valid move is an EMPTY playing square |
| OthelloMoves.FlipRun | othello.py:93-96 | the `while flip` loop turns exactly the c-run starting at `start` into p and leaves every other cell alone |
| OthelloMoves.FlipsThroughHeadings | othello.py:89-96 | the discs flipped by the first n directions lie in none of the later directions' sectors |
| OthelloMoves.FlipsThroughNonEmpty | othello.py:80-83 | some disc is flipped exactly when some direction brackets |
| OthelloMoves.BracketsAgree | othello.py:89-90 | find_match answers the same on the partly rewritten board as on the original, because earlier rewrites lie in other directions' sectors |
| OthelloMoves.Flipped | othello.py:86-97 | the board make_move returns has 100 cells, and every cell it changes now holds p |
| OthelloMoves.MakeMove | othello.py:86-97 | the result is the original board with `move` and every bracketed opponent run of the original board set to p, or the board unchanged when nothing brackets |
| OthelloMoves.FlippedWellFormed | othello.py:86-97 | make_move keeps the board well formed: length 100, ring intact, every playing square `.`, `@` or `o` |
| OthelloMoves.FlippedIllegalIsIdentity | othello.py:86-97 | a move that brackets nothing returns the board unchanged: no error is raised |
| OthelloMoves.ValidMoveFlips | othello.py:77-84 | is_move_valid holds exactly when `move` is EMPTY and the move would flip at least one disc |
| OthelloMoves.FlippedDiscSets | othello.py:86-97 | after a move that flips something, p holds its old discs plus `move` plus the flipped discs, the opponent loses exactly the flipped discs, and only `move` stops being EMPTY |
| OthelloMoves.FlippedCounts | othello.py:86-97 | on a legal move p gains 1 plus the number of flips, the opponent loses that number, and one EMPTY cell is used up |
| OthelloMoves.ValidMovesBelow | othello.py:99-106 | the move list is strictly ascending and holds exactly the valid moves below n |
| OthelloMoves.GetValidMoves | othello.py:99-106 | get_valid_moves returns, strictly ascending and without duplicates, exactly the indices where is_move_valid holds |
| OthelloMoves.HasAnyValidMoves | othello.py:108-112 | has_any_valid_moves holds exactly when some index is a valid move |
| OthelloMoves.NextPlayer | othello.py:114-121 | hands the turn to the opponent when it can move, else to the same player when it can, else None; never to a player without a move |
| OthelloMoves.GameOver | othello.py:223-225 | as written, game_over is true exactly when `player` still has a legal move |
| OthelloMoves.GameOverIntended | othello.py:223-224 | the documented game_over: true exactly when neither side has a legal move, which is when next_player returns None |
| OthelloOpening.StartingBoardDiscs | othello.py:51-53 | the starting board holds WHITE exactly on 44 and 55 and BLACK exactly on 45 and 54 |
| OthelloOpening.OpeningBrackets | othello.py:64-75 | in the opening position BLACK brackets only from 34 southward, 43 eastward, 56 westward and 65 northward |
| OthelloOpening.OpeningValid | othello.py:77-84 | in the opening position BLACK's legal moves are exactly 34, 43, 56 and 65 |
| OthelloOpening.StartingBlackMoves | othello.py:99-106 | on the starting board get_valid_moves gives BLACK the list [34, 43, 56, 65] |
| OthelloOpening.GameOverAtStart | othello.py:223-225 | game_over as written reports the starting position as over for BLACK; the documented test does not |
| OthelloScoring.TruncDiv | othello.py:153 | math.trunc of the quotient: rounds toward zero, for both signs of the dividend |
| OthelloScoring.TruncDivNegate | othello.py:153 | truncation is symmetric: negating the dividend negates the quotient |
| OthelloScoring.Ratio | othello.py:150-154 | trunc(100*(b-w)/(b+w)), or 0 when b+w == 0, lies in [-100, 100]; it is 0 when b == w, positive only when b > w, negative only when b < w, never negative when b >= w and never positive when b <= w, and ±100 when one side has nothing |
| OthelloScoring.RatioAntisymmetric | othello.py:153 | swapping the two counts negates the ratio |
| OthelloScoring.ScoringWeightCorners | othello.py:18-29 | SCORING_MATRIX gives 6 to the corners and -4 to the diagonal X-squares, and 0 to the whole ring |
| OthelloScoring.WeightScore | othello.py:128-136 | weight_score is the SCORING_MATRIX sum over the BLACK cells below index 89 minus the same sum over the WHITE cells (the ring weighs 0, so this is the sum over 11..88) |
| OthelloScoring.WeightScoreAntisymmetric | othello.py:128-136 | exchanging the colours of every disc negates weight_score |
| OthelloScoring.CornerScore | othello.py:188-204 | corner_score is the truncated ratio of 3 points per corner (11, 18, 81, 88) held by each side |
| OthelloScoring.CornerScoreRange | othello.py:202-204 | corner_score lies in [-100, 100], is 0 when no corner is held, 100 when only BLACK holds corners, and -100 when only WHITE does |
| OthelloScoring.CornerScoreAntisymmetric | othello.py:188-204 | exchanging the colours negates corner_score |
| OthelloScoring.IsCorner | othello.py:206-209 | is_corner holds exactly for the squares on both an edge row and an edge column |
| OthelloScoring.SurroundingPieces | othello.py:211-215 | the list holds `move + d` for each d of DIRECTIONS in order; from a square, each lies on its own direction's ray |
| OthelloScoring.CountNeighbours | othello.py:176-183 | the inner loop counts the neighbours holding WHITE (potential moves for BLACK) and those holding BLACK |
| OthelloScoring.MobilityRatios | othello.py:166-185 | the actual ratio compares the lengths of the two valid-move lists; the potential ratio compares the two frontier counts over the EMPTY cells |
| OthelloScoring.PotentialMobilityAntisymmetric | othello.py:172-185 | exchanging the colours negates the potential-mobility ratio |
| OthelloScoring.Score2 | othello.py:227-234 | score2 is 1 + #BLACK - #WHITE over indices 0..98, so a tied board scores 1 |
| OthelloScoring.Score2CountsAllDiscs | othello.py:229 | stopping at index 98 misses no disc on a well-formed board, because index 99 is on the ring |
| OthelloScoring.Score2AfterMove | othello.py:227-234 | a legal move raises the mover's score2 margin by 2 per flipped disc plus 1 |
| OthelloStability.StableFrom | othello.py:156-164 | the answer of is_stable's shared-cursor scan; it is False only when some direction still to go has an EMPTY cell behind `move` |
| OthelloStability.IsStable | othello.py:156-164 | is_stable answers what the shared-cursor scan StableFrom computes from `move` |
| OthelloStability.StableFromOwnDisc | othello.py:157-164 | started on a cell holding the player's own disc, the scan never moves, so is_stable answers True for every disc |
| OthelloStability.SameColourRuns | othello.py:142-146 | the collected discs all hold the mover's colour |
| OthelloStability.CollectRun | othello.py:143-146 | the `while` loop lists exactly the same-colour run from `start` along d |
| OthelloStability.CollectSameColour | othello.py:140-146 | the first loop lists exactly the mover's discs contiguous to `move` in the eight directions |
| OthelloStability.StablePieces.constructor | othello.py:30 | STABLE_PIECES starts with both sets empty |
| OthelloStability.StablePieces.Add | othello.py:149 | adding a disc grows only the mover's set, by that disc |
| OthelloStability.StablePieces.RecordIfStable | othello.py:147-149 | every collected disc is added, since is_stable always answers True |
| OthelloStability.StablePieces.StabilityScore | othello.py:138-154 | the mover's set grows by exactly the contiguous same-colour discs, the other set is unchanged, and the result is the truncated ratio of the two set sizes |
| TicTacToe.Score | tictactoe.py:12 | SCORE maps XWINS to 1, OWINS to -1 and TIE to 0 |
| TicTacToe.UnitsShape | tictactoe.py:3-6 | UNITS is eight lines of three cells, each inside the board |
| TicTacToe.GoalTest | tictactoe.py:28-34 | an unfinished board still has a blank, and a tied board has none |
| TicTacToe.GoalTestFromMeaning | tictactoe.py:28-34 | the first unit, in ROWS, COLS, DIAGS order, that is all X or all O decides the result (X checked first); with none, TIE exactly when no blank remains, else CONTINUE |
| TicTacToe.BlanksBelow | tictactoe.py:36-37 | the move list is strictly ascending and holds exactly the blank cells |
| TicTacToe.GetMoves | tictactoe.py:36-37 | get_moves returns exactly the blank cells, strictly ascending |
| TicTacToe.MovesExistIffBlank | tictactoe.py:36-37 | there is a move exactly when a blank remains |
| TicTacToe.MakeMove | tictactoe.py:39-41 | the board keeps its length and differs only at `move`, which becomes the player's mark |
| TicTacToe.MakeMoveFillsBlank | tictactoe.py:39-41 | each move leaves one blank fewer, so minimax terminates |
| TicTacToe.FirstMax | tictactoe.py:53-54 | picks a child of highest score, the first such child |
| TicTacToe.FirstMin | tictactoe.py:55-56 | picks a child of lowest score, the first such child |
| TicTacToe.Minimax | tictactoe.py:43-56 | every score lies in {-1, 0, 1}; a chosen child's move is a blank cell |
| TicTacToe.Children | tictactoe.py:49-51 | one child per move, in move order, each the board after that move |
| TicTacToe.MinimaxTerminal | tictactoe.py:44-47 | minimax stops exactly on a finished board and scores it SCORE[goal_test(board)] |
| TicTacToe.MinimaxChosenChild | tictactoe.py:49-56 | the chosen child is reached by a move from get_moves, played by the side to move |
| TicTacToe.ChildrenScores | tictactoe.py:50-51 | each child's score is the minimax value for the other side of the board after its move |
| TicTacToe.MinimaxMaximisesForX | tictactoe.py:53-54 | X picks a child of maximal minimax value |
| TicTacToe.MinimaxTieBreakForX | tictactoe.py:53-54 | every move below X's chosen move scores strictly less |
| TicTacToe.MinimaxMinimisesForO | tictactoe.py:55-56 | O picks a child of minimal minimax value |
| TicTacToe.MinimaxTieBreakForO | tictactoe.py:55-56 | every move below O's chosen move scores strictly more |
| TicTacToe.MinimaxStrategy | tictactoe.py:58-60 | 4 on START_BOARD; otherwise, on an unfinished board, the `last_move` of the child minimax chooses, which is a move from get_moves; no move on a finished board |
| TicTacToe.MinimaxStrategyIsOptimal | tictactoe.py:58-60 | away from the opening, the strategy plays a move of best minimax value for the side to move (highest for X, lowest for O), and every lower move has a different value |

## Left out

- `alpha_beta`, `alpha_beta_strategy` and `standard_strategy` (othello.py:291-329, 343): their scores are floats from `score`, and BLACK's tie-break adds `random.random()`.
- `score` and the `.7*actual + .3*potential` blend of `mobility_score` (othello.py:123-126, 186): floating point. Only the two truncated integer ratios are modelled (`MobilityRatios`).
- `minmax_search` and `minmax_strategy` (othello.py:249-289): their call sites are broken (`self.score(board)`, `get_valid_moves(player)`, `weight_flip(move)`), so there is no coherent behaviour to model.
- `best_strategy` (othello.py:334-341): an endless loop writing a shared multiprocessing value, used only for external time-boxing.
- `StandardPlayer` and `ParallelPlayer` (othello.py:361-438): game loops, printing and process control.
- `get_pretty_board`, `random_strategy`, `weight_flip`, `IllegalMoveError` and `opponent`: printing only, random choice, never called, never raised, and a plain lookup of `OTHER` (modelled as `Other`).
- `human_strategy`, `play_game` and `print_board` (tictactoe.py:25-26, 62-89): console input and output.
- `result_string` and `DEBUG` (tictactoe.py:13, 17): not used by the modelled functions.
- OthelloScoring.CornerScore: the "potential corner" branch (othello.py:196-201) is not in the loop. It compares the list returned by `surrounding_pieces` with a piece character, which is never equal, so it never adds anything.
- OthelloMoves.FindMatch, OthelloMoves.MakeMove: these require `move` to be a playing square. The callers in othello.py, `alpha_beta` (othello.py:304) and `StandardPlayer.play` (othello.py:381), pass a move from `get_valid_moves`, which is one. `ParallelPlayer.play` (othello.py:410-433) passes `best_shared.value`, which stays -99 when the search publishes nothing in time; `find_match` then reads `board[-109]` and raises `IndexError`. Python's negative indexing from a ring cell is not modelled either.
- OthelloMoves.IsMoveValid: this requires `move` in 0..99. The source wraps -100..-1 around to the end of the board (`is_move_valid(board, p, -99)` reads `board[1]`, an OUTER cell, and answers False), and raises `IndexError` below -100 and above 99; the model does not cover those indices.
- OthelloStability.IsStable, OthelloStability.StablePieces.StabilityScore: these require `board[move]` to hold a disc. On an EMPTY or OUTER cell `is_stable` looks up `OTHER` with a key that does not exist and raises `KeyError`. `stability_score` on an OUTER cell raises `KeyError` or `IndexError`: its first loop either walks the ring off the board (move 90 scanning north reaches `board[-110]`, othello.py:143-146) or collects ring cells that `is_stable` then rejects. On an EMPTY cell it raises `KeyError` once an EMPTY neighbour has been collected, and with no EMPTY neighbour it returns the ratio with both sets unchanged. The model covers none of these cases.
- OthelloStability.StablePieces.StabilityScore: `STABLE_PIECES` is one shared object in the source. The model passes the `StablePieces` object explicitly, and its fields are plain sets, so nothing else aliases them.
- OthelloScoring.Ratio: `math.trunc(100*(b-w)/(b+w))` goes through a float quotient. The model uses exact integer division toward zero, which agrees because the counts are small (at most a few hundred).
- TicTacToe.Minimax: on a finished board the source stores the score on the class `node` and returns the class itself. The model returns only that score (`Terminal`), which is all callers read.
- TicTacToe.MakeMove: the source's `assert(board[move]==".")` (tictactoe.py:40) is the requires, so the `AssertionError` path is not modelled, and neither is Python's wrap-around for a negative `move` (move -1 on a board ending in `.` gives an 18-character board, `board[:-1]` + mark + `board[0:]`; moves -2 to -9 act as move 9 + move). Only `human_strategy` and `play_game`, which are left out, can pass such a move.
- TicTacToe.MinimaxStrategy: on a finished board other than START_BOARD, the source reads `last_move` off the bare class and raises `AttributeError`. The model returns None there.
- TicTacToe.Minimax: `max` and `min` are modelled by their first-extremum choice over the children list, not by Python's key-function machinery.

## Findings

| source | as written | input that shows it | evidently intended | confidence | as-written member | corrected member |
|---|---|---|---|---|---|---|
| othello.py:223-225 | `game_over` returns `has_any_valid_moves(board, player)`, which is true while `player` can still move | the starting board with `player` BLACK: BLACK has the legal moves 34, 43, 56 and 65, yet `game_over` answers True | true only when neither `player` nor the opponent has a legal move, as the docstring says | not executed | OthelloOpening.GameOverAtStart | OthelloMoves.GameOverIntended |
