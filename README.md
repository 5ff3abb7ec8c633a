# Alpha-beta chess engine, modelled in Dafny

The engine picks a move for one colour in a chess position. Every legal root
move is searched by a depth-limited alpha-beta search (`engine`) that:

- caches node values in a transposition table keyed by the position's Zobrist hash;
- tries captures and checking moves first (`orderMoves`);
- scores leaves with a static evaluation (`evalFunct`).

The static evaluation is the sum of four terms:

- the material balance;
- a mate term of ±1e9 when the side to move has no legal move;
- an opening term of ±(legal moves)/30 before move 10;
- a small bonus or penalty for each piece on d4, d5, e4 and e5.

The root keeps the first move of strictly greatest value.

The model is in seven modules, one file each:

- `Chess` (chess_rules.dfy): the chess rules library as a record `Rules<P, M>` of total functions over an opaque position type `P` and move type `M`. A move played and taken back (`push`/`pop`) is the pure function `after`.
- `ExtReal` (ext_real.dfy): reals extended with ±infinity, for the search window.
- `Evaluation` (evaluation.dfy): the evaluation terms as functions, with lemmas.
- `MoveOrder` (move_order.dfy): the score table of the ordering scan and the stable descending sort.
- `AlphaBeta` (alpha_beta.dfy): the search as mutually recursive functions that thread the transposition table. It has lemmas about the table and about node values.
- `RootChoice` (root_choice.dfy): the root loop over the legal moves, and the selection of the best move.
- `ChessEngine` (engine.dfy): the class `Engine`. Its fields are the root board, the depth, the colour and a mutable transposition table. Its loops are proved equal to the functions above.

Scores are exact `real`s. Every constant (1, 5.25, 3.5, 9, 0.2, 0.25, 0.15, 0.3, 0.025, 1/30, ±1e9, -99999, 9999999999) is kept as the source writes it.

A maximizing node starts at -99999, which is above the -1e9 mate score, and a minimizing node starts at 9999999999, which is above +1e9. `AlphaBeta.MaxNode` proves the consequence: a maximizing node none of whose explored children beats -99999 scores exactly -99999, even when every child is a mate against the engine.

## Model

| member | source | states |
|---|---|---|
| Evaluation.PieceValue | engine.py:51-60 | piece values lie in [0, 9]; a type is worth 0 exactly when it is not pawn to queen (king and unknown types) |
| Evaluation.MaterialAntisymmetric | engine.py:44-49 | the material balance seen by the other colour is exactly the negation |
| Evaluation.MaterialBound | engine.py:44-60 | with at most 64 pieces of each type and colour, the material balance lies in [-1424, 1424] |
| Evaluation.MateOpportunity | engine.py:62-68 | the term is 0 exactly when a legal move exists; it is negative exactly when there is no legal move and the engine's colour is to move; its value is one of 0, 1e9, -1e9 |
| Evaluation.OpeningBook | engine.py:88-92 | 0 from move 10 on or with no legal move; non-negative when the engine's colour is to move and non-positive otherwise; before move 10, 30 times the term is ± the number of legal moves |
| Evaluation.CenterWeight | engine.py:73-80 | each centre weight lies in [0, 0.3] and is 0 exactly for a type that is not pawn to king |
| Evaluation.CenterTerm | engine.py:81-85 | one square contributes at most 0.3 either way, and 0 when it is empty |
| Evaluation.CenterBound | engine.py:70-86 | the centre term lies in [-1.2, 1.2] |
| Evaluation.CenterOnlyReadsCenter | engine.py:70-86 | two positions with the same occupants on d4, d5, e4 and e5 get the same centre term, and an empty centre scores 0 |
| Evaluation.Material | engine.py:44-49 | defines the material balance as the fold of own count times value minus opponent count times value over the six piece types; described by MaterialAntisymmetric and MaterialBound |
| Evaluation.CenterControl | engine.py:70-86 | defines the centre term as the fold of CenterTerm over d4, d5, e4 and e5; described by CenterBound and CenterOnlyReadsCenter |
| Evaluation.Evaluate | engine.py:41-42 | defines evalFunct as material plus mate term plus opening term plus centre term; described by EvaluateAntisymmetric, EvaluateNoMoves and MateDominates |
| Evaluation.EvaluateAntisymmetric | engine.py:41-42 | the whole evaluation is zero-sum: for the other colour it is negated |
| Evaluation.EvaluateNoMoves | engine.py:41-42 | without legal moves the evaluation is material plus centre plus or minus 1e9, with no opening term |
| Evaluation.MateDominates | engine.py:41-92 | a position where the engine's colour is mated scores below every position with a legal move, and one where the opponent is mated scores above it |
| MoveOrder.MoveKey | engine.py:127-133 | one scan adds 0, 50, 100 or 150; at least 100 exactly for a capture, and 50 modulo 100 exactly for a checking move |
| MoveOrder.Scan | engine.py:128-133 | defines one pass of the scan over a move: +100 for a capture, then +50 when the move gives check; described by ScanLookup and ScoreTableCounts |
| MoveOrder.ScoreTable | engine.py:126-133 | defines the default-0 score table after scanning the moves in order; described by ScoreTableCounts and LegalMoveScore |
| MoveOrder.SortDesc | engine.py:134 | defines the stable descending sort as repeated insertion after every element of at least equal score; described by SortDescCorrect |
| MoveOrder.OrderedMoves | engine.py:124-134 | defines orderMoves as the legal moves sorted by the table of one scan; described by OrderedByKey and ChessEngine.Engine.OrderMoves |
| MoveOrder.ScoreTableCounts | engine.py:126-133 | after the scan, each move's score in the default-0 table is its key times the number of times it was listed |
| MoveOrder.LegalMoveScore | engine.py:126-133 | when the legal moves are distinct, each legal move's score is its own key, one of 0, 50, 100, 150 |
| MoveOrder.SortDescCorrect | engine.py:134 | the sort keeps every move with its multiplicity, orders by non-increasing score, and keeps the input order among moves of equal score |
| MoveOrder.OrderedByKey | engine.py:124-134 | when every legal move is listed once, the ordered moves run by non-increasing key: capturing checks, then captures, then checks, then quiet moves |
| AlphaBeta.Search | engine.py:94-122 | defines engine: leaf evaluation, cache hit, or the max or min loop over the ordered moves followed by the table write; described by SearchTable, SearchLeaf, SearchCached, SearchAgain, MaxNode and MinNode |
| AlphaBeta.Step | engine.py:105-108 | defines one turn of a loop: fold the child value in with max or min, raise alpha or lower beta, keep the child's table; described by ExploreStep and TraceWindow |
| AlphaBeta.Explore | engine.py:104-110 | defines a node's loop over the remaining moves, stopping after the first turn that leaves beta <= alpha (lines 113-119 for the minimizing loop); described by ExploreChildren, MaxNode and MinNode |
| AlphaBeta.Trace | engine.py:104-108 | defines the loop state after n turns with no cutoff test, each turn folding in the search of the next child (`AlphaBeta.Children`) from the state before it; described by ExploreChildren, TraceChildren and TraceWindow |
| AlphaBeta.TraceWithExplored | engine.py:105-106 | for any child function, n turns append the n child values in turn order, child j taken from the state after j turns |
| AlphaBeta.TraceWithWindow | engine.py:108-117 | for any child function, a maximizing loop keeps beta and only raises alpha, and a minimizing loop keeps alpha and only lowers beta, turn after turn |
| AlphaBeta.TraceChildren | engine.py:104-106 | after n turns of a node's loop the record holds n values, and value i is the search of the position after moves[i] one ply shallower, from the table, alpha and beta held before turn i |
| AlphaBeta.ExploreChildren | engine.py:104-119 | a node's loop ends at its trace after as many turns as children explored, and child i is the search of the position after moves[i] from the loop's table and window before turn i |
| AlphaBeta.TraceWindow | engine.py:108-117 | along a maximizing loop beta is constant and alpha never falls below the node's alpha nor from one turn to the next; along a minimizing loop alpha is constant and beta never rises |
| AlphaBeta.SearchTable | engine.py:94-122 | the search never changes or removes an entry present when it starts (a node's own write may replace an entry its subtree wrote under the same hash), and an interior node that missed the table leaves its value under its hash |
| AlphaBeta.SearchLeaf | engine.py:95-96 | at depth 0 or in a finished game the value is the evaluation and the table is unchanged |
| AlphaBeta.SearchCached | engine.py:98-100 | an interior node whose hash is cached returns the cached value whatever the window and depth, leaving the table unchanged |
| AlphaBeta.SearchAgain | engine.py:98-121 | searching an interior position again, with the table the first search left, returns the same value and leaves the table unchanged |
| AlphaBeta.SeqMaxIsMaximum | engine.py:106 | the running max of -99999 and the child values is an upper bound of both, equals one of them, and is -99999 when no child exceeds it |
| AlphaBeta.SeqMinIsMinimum | engine.py:115 | the running min is the minimum of the start value and the child values, in the same sense |
| AlphaBeta.MaxNode | engine.py:102-110 | a maximizing interior node scores max(-99999, explored child values); child i is the search of the position after the i-th ordered move, from the table and window the loop holds before it; beta stays put and alpha only rises; the loop stops early only when beta <= alpha, and at the first such child |
| AlphaBeta.MinNode | engine.py:111-119 | a minimizing interior node scores min(9999999999, explored child values); child i is the search of the position after the i-th ordered move, from the loop's table and window; alpha stays put and beta only falls; the same cutoff rule applies to the lowered beta |
| RootChoice.RootSweep | engine.py:21-23 | defines the root searches: evaluateMove with the window (-inf, +inf) on each legal move in order, threading the table; described by RootSweepFacts and ChessEngine.Engine.GetBestMove |
| RootChoice.RootSweepFacts | engine.py:21-23 | the root search yields one value per legal move and never changes an entry present before the root searches |
| RootChoice.SelectBest | engine.py:15-31 | no move is chosen exactly when every root search failed; otherwise the move chosen is a successful one whose value is the greatest and strictly above every earlier success |
| ChessEngine.Engine.constructor | engine.py:7-12 | the fields hold the arguments and the table starts empty |
| ChessEngine.Engine.GetBestMove | engine.py:14-33 | the table afterwards is the one the root search leaves and it extends the old one; no move exactly when there is no legal move; otherwise the first legal move of greatest value |
| ChessEngine.Engine.SearchRootMoves | engine.py:21-22 | the values and the table are those of the root search of each given move in order, every search starting from the table the previous one left |
| ChessEngine.Engine.EvaluateMove | engine.py:35-39 | the value and the new table are those of a search of the position after the move at depth maxDepth-1 |
| ChessEngine.Engine.EvalFunct | engine.py:41-42 | the returned score is Evaluation.Evaluate of the board |
| ChessEngine.Engine.MaterialEvaluation | engine.py:44-49 | the loop's score is Evaluation.Material of the board |
| ChessEngine.Engine.CenterControl | engine.py:70-86 | the loop's score is Evaluation.CenterControl of the board |
| ChessEngine.Engine.Search | engine.py:94-122 | the value and the new table are exactly those of AlphaBeta.Search from the old table |
| ChessEngine.Engine.MaximizingLoop | engine.py:102-110 | the loop's value and table are those of AlphaBeta.Explore from -99999 and the window |
| ChessEngine.Engine.MinimizingLoop | engine.py:111-119 | the loop's value and table are those of AlphaBeta.Explore from 9999999999 and the window |
| ChessEngine.Engine.OrderMoves | engine.py:124-134 | the result is a permutation of the legal moves, sorted by descending score and stable among equal scores; the scan's table gives each move its key times its multiplicity |

## Left out

- The thread pool: the source submits the root searches concurrently and reads their results in completion order, while they share the transposition table. The model runs them one after another in the library's move order and threads the table through them. With concurrency, the table each search sees and the tie-break among equal values depend on timing.
- Exceptions in the root searches: `RootChoice.SelectBest` models a failed search as `None`, which is skipped as the handler does. `ChessEngine.Engine.GetBestMove` passes only successes, because no modelled operation raises. The handler's message print is left out.
- `node_count` is initialised and never used, so it is not modelled.
- The chess rules library (move generation, `is_game_over`, `is_check`, `is_capture`, `piece_at`, piece counts, the Zobrist hash) is an opaque parameter. Its internals are not part of this model.
- Hash collisions are not modelled separately: two positions with the same hash share a table entry, as in the source, because the table is keyed by `rules.hash`.
- Floating point: scores are exact reals. Rounding of 1/30 and of sums is not modelled.
- ChessEngine.Engine.Search: requires depth >= 0. With a negative depth (a maxDepth of 0 or less), the source recursion stops only when the game ends or when Python raises RecursionError, which the root handler (engine.py:30-31) catches, skipping that move. The model bounds neither.
- ChessEngine.Engine.GetBestMove: requires maxDepth >= 1 for the same reason.
- ChessEngine.Engine.EvaluateMove: requires maxDepth >= 1 for the same reason.
- The claim that the pruned search returns the plain minimax value is not proved. With a shared transposition table the claim does not hold: a value cached under one window is reused under another. The model states what the code computes instead (`AlphaBeta.MaxNode`, `AlphaBeta.MinNode`).
- History-less root copies: each root search runs on `self.board.copy(stack=False)`, which drops the move stack, so `is_game_over` inside that search cannot see positions played before the root (the repetition rules). `rules.after` and `rules.isGameOver` are functions of the position alone here, so the model does not tell the engine's board from that copy.
- Board copies and push/pop are not modelled as mutation. A move is applied by the pure `after`, which is what push-then-pop amounts to for the caller.
