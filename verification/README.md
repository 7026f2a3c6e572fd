# husky search and evaluation, modelled in Dafny

husky is a small chess engine written in Rust. It has two independent
game-tree searches. Both call the same static evaluation, which exists as two
copies.

- `src/evaluator.rs` holds `Evaluator`. `get_eval` runs a depth-bounded
  minimax with alpha-beta pruning. It searches from depth 0 with the window
  (-120, 120) and maximises when White is to move. At `max_depth` it returns
  the *negated* `total_eval`. Its seeds for nodes without moves are -120 and
  120, positive in White's favour like `total_eval`, so the negated leaves
  use the opposite convention (see "Findings").
- `src/main.rs` holds an earlier search: `best_move`, `max_ab` and `min_ab`.
  It stops at depth 8 and does not negate the evaluation. Below the root every
  ply is a `max_ab` ply. Nodes pass up their child's move, not the move they
  applied. Cutoffs compare against `alpha` only.
- `total_eval` scores stalemate as 0. Checkmate scores -120 with White to move
  and 120 with Black to move. Any other position scores material + mobility +
  king mobility, all computed in `i8` with truncating division.

The chess rules come from the `chess` crate. Here the board is a type
parameter `B`, and the crate's operations are a record of total functions
(`Chess.Rules`): legal moves, move application, status, side to move, each
colour's pieces, king squares, single-move legality, check and the null move.

Modules:

- `Chess` (chess.dfy) is the crate interface. It holds squares and their
  orthogonal neighbours, and moves.
- `RustInt` (rust_int.dfy) holds Rust's truncating `/` and the `as i8` cast.
- `Evaluator` (evaluator.dfy) is `src/evaluator.rs`.
- `AlphaBeta` (alpha_beta.dfy) defines an unpruned reference minimax. It
  proves that `Evaluator.Minimax` is a fail-soft alpha-beta search of it.
- `LeafSign` (leaf_sign.dfy) shows what the negated leaves do to a mate in
  one, and what White-positive leaves do instead.
- `MainSearch` (main_search.dfy) is `src/main.rs`, including its copy of the
  evaluation. It also holds the corrected root search from "Findings".
- `MainSearchProofs` (main_search_proofs.dfy) characterises what `max_ab`,
  `min_ab` and `best_move` return.

The evaluation's constants, as the code has them:

- Material weights are 1 for a pawn, 3 for a knight or bishop, 5 for a rook,
  9 for a queen and 0 for the king.
- The king-mobility difference is divided by 16, and so is always 0.
- The mobility difference is divided by 10, truncating toward zero.
- Mate scores ±120.
- There is no centre-control term, and the searches have no move ordering,
  transposition cache or iterative deepening.

The placeholder move `empty_move()` (src/main.rs:28-30) is a1 to a2 without
promotion. It is `MainSearch.EmptyMove`.

## Model

| member | source | states |
|---|---|---|
| `Evaluator.Material` | src/evaluator.rs:85-94 | The material sum over one colour's pieces is a natural number, at most 9 per piece. |
| `Evaluator.MaterialByCounts` | src/evaluator.rs:85-105 | The loop's sum equals pawns + 3·knights + 3·bishops + 5·rooks + 9·queens. Kings count 0. |
| `Evaluator.MaterialPermutation` | src/evaluator.rs:85-105 | The order in which the occupied squares are visited does not change the material. |
| `Evaluator.PieceEvaluation` | src/evaluator.rs:78-108 | `piece_evaluation` is White's weighted piece count minus Black's. |
| `Evaluator.PieceEvaluationColourSwap` | src/evaluator.rs:78-108 | Exchanging the two colours' pieces negates `piece_evaluation`. |
| `Evaluator.AvailableSteps` | src/evaluator.rs:117-127 | The count is at most the number of candidate steps that lie on the board, so a step that falls off the board adds nothing. A list whose steps are all off the board gives 0. |
| `Evaluator.KingMobility` | src/evaluator.rs:114-127 | A king has at most 4 available orthogonal steps. |
| `Evaluator.KingEvaluation` | src/evaluator.rs:110-142 | `king_evaluation` is always 0, because a difference in [-4, 4] truncated by 16 is 0. |
| `Evaluator.MoveEvaluation` | src/evaluator.rs:144-162 | 0 when in check. Always within [-25, 25]. With both counts below 128, it equals (White's count − Black's count) truncated by 10 and lies in [-12, 12]. The side to move's count comes from the board, the other side's from the null-move board. |
| `Evaluator.MoveEvaluationWraps` | src/evaluator.rs:153-161 | The `as i8` cast wraps. 130 White moves against 0 give -12 instead of 13. |
| `Evaluator.GetEval` | src/evaluator.rs:16-20 | With `max_depth` 0 the result is the negated `total_eval`. Otherwise it is ≥ -120 when White is to move and ≤ 120 when Black is. A position without legal moves gives exactly -120 or 120 respectively. |
| `Evaluator.GetEvalCorrected` | src/evaluator.rs:16-25 | `get_eval` with `total_eval` itself at the cutoff. With `max_depth` 0 the result is `total_eval`. Otherwise the same -120/120 bounds and exact scores without legal moves as `get_eval`. |
| `Evaluator.TotalEval` | src/evaluator.rs:58-76 | Stalemate gives 0. Checkmate gives -120 with White to move and 120 otherwise. Any other position gives material + mobility, since the king term vanishes. |
| `Evaluator.Minimax` | src/evaluator.rs:22-56 | At `depth >= max_depth` the result is `total_eval` times the leaf sign; `get_eval` passes -1, the `-1 *` of line 24. Below it, a maximising node returns ≥ -120 and a minimising node ≤ 120. A node without legal moves returns exactly -120 or 120. |
| `Evaluator.MaxLoop` | src/evaluator.rs:31-42 | The maximising loop never returns less than its running `best_eval`. |
| `Evaluator.MinLoop` | src/evaluator.rs:43-55 | The minimising loop never returns more than its running `best_eval`. |
| `RustInt.TruncDiv` | src/evaluator.rs:141 | Division rounds toward zero for both signs: the remainder has the numerator's sign and is smaller than the divisor. |
| `RustInt.CastI8` | src/evaluator.rs:154-158 | `as i8` gives the unique value in [-128, 127] congruent to the count modulo 256. It is the identity on that range. |
| `AlphaBeta.ValueMax` | src/evaluator.rs:31-42 | The unpruned maximum is at least its seed and at least every child's value. |
| `AlphaBeta.ValueMin` | src/evaluator.rs:43-55 | The unpruned minimum is at most its seed and at most every child's value. |
| `AlphaBeta.MinimaxFailSoft` | src/evaluator.rs:22-56 | For alpha < beta, pruned `minimax` is fail-soft with respect to the unpruned value. A result ≤ alpha bounds the value from above, a result ≥ beta bounds it from below, and a result inside the window equals it. |
| `AlphaBeta.MaxLoopFailSoft` | src/evaluator.rs:31-42 | The maximising loop keeps that fail-soft relation while `alpha` is raised, including when it exits early on `beta <= alpha`. |
| `AlphaBeta.MinLoopFailSoft` | src/evaluator.rs:43-55 | The minimising loop keeps that fail-soft relation while `beta` is lowered, including when it exits early. |
| `AlphaBeta.MinimaxWindow` | src/evaluator.rs:31-55 | If the true value lies strictly inside (alpha, beta), `minimax` returns it. If it is ≤ alpha the result is ≤ alpha, and if it is ≥ beta the result is ≥ beta. |
| `AlphaBeta.GetEvalSound` | src/evaluator.rs:16-20 | `get_eval` maximises iff White is to move and returns the unpruned root value whenever that value lies in (-120, 120). Otherwise it lands on the same side of the window. |
| `AlphaBeta.GetEvalCorrectedSound` | src/evaluator.rs:16-25 | The corrected `get_eval` returns the unpruned root value, with un-negated leaves, whenever it lies in (-120, 120). Otherwise it lands on the same side of the window. |
| `LeafSign.MateInOneAsWritten` | src/evaluator.rs:16-56 | In a position where White mates in one, `get_eval` scores -120, White's worst score, with `max_depth` 1 and 120 with `max_depth` 2. |
| `LeafSign.MateInOneCorrected` | src/evaluator.rs:16-56 | With White-positive leaves the same mate in one scores 120 with `max_depth` 1 and with `max_depth` 2. |
| `LeafSign.MatedNodeAsWritten` | src/evaluator.rs:22-55 | A checkmated node searched for the side to move scores the opposite of its -120/120 seed when it lies at the cutoff, and the seed when it lies above it. |
| `LeafSign.MatedNodeCorrected` | src/evaluator.rs:22-55 | With White-positive leaves, a checkmated node scores -120 when White is mated and 120 when Black is, at every depth. |
| `MainSearch.PieceEvaluation` | src/main.rs:120-150 | The main.rs copy of `piece_evaluation` equals the evaluator.rs one. |
| `MainSearch.KingEvaluation` | src/main.rs:152-184 | The main.rs copy of `king_evaluation` equals the evaluator.rs one. |
| `MainSearch.MoveEvaluation` | src/main.rs:186-204 | The main.rs copy of `move_evaluation` equals the evaluator.rs one. |
| `MainSearch.TotalEval` | src/main.rs:100-118 | The main.rs copy of `total_eval` equals the evaluator.rs one. |
| `MainSearch.MaxAb` | src/main.rs:32-64 | The returned move is always `empty_move()`. At depth ≥ 8 the score is the evaluator's `total_eval`, with no sign inversion. Below depth 8, a node without legal moves scores -120. |
| `MainSearch.MaxAbLoop` | src/main.rs:45-61 | As long as `top_move` is still the placeholder, the loop returns the placeholder. |
| `MainSearch.MinAb` | src/main.rs:66-98 | The returned move is always `empty_move()`. At depth ≥ 8 the score is the evaluator's `total_eval`, with no sign inversion. Below depth 8, a node without legal moves scores 120. |
| `MainSearch.MinAbLoop` | src/main.rs:79-95 | As long as `lowest_move` is still the placeholder, the loop returns the placeholder. |
| `MainSearch.BestMove` | src/main.rs:14-30 | `best_move` as written returns `empty_move()` for every position. So whenever a1-a2 is not legal, it answers with an illegal move. |
| `MainSearch.RootSearch` | src/main.rs:45-63 | The corrected root loop answers with a move exactly when it has examined a move or one was already recorded. |
| `MainSearch.BestMoveCorrected` | src/main.rs:14-26 | The corrected `best_move` answers with a move iff the position has a legal move. |
| `MainSearchProofs.PickFirst` | src/main.rs:55-57 | A node's score is the first child score beyond `alpha`, when there is one. |
| `MainSearchProofs.PickLast` | src/main.rs:49-63 | With no child score beyond `alpha`, the score is the last child's, or the seed when there are no children. |
| `MainSearchProofs.ChildScores` | src/main.rs:45-47 | One score per legal move, in generation order. Each is the `max_ab` score of that child one ply deeper. |
| `MainSearchProofs.MaxAbScore` | src/main.rs:32-64 | `max_ab` returns the placeholder move together with the first child score above `alpha`, else the last child score, else -120. The result does not depend on `beta`. |
| `MainSearchProofs.MaxAbLoopScore` | src/main.rs:45-63 | From any move onward, with the placeholder recorded, the `max_ab` loop returns the first remaining score above `alpha`, else the last one, else `top_score`. |
| `MainSearchProofs.MinAbLoopScore` | src/main.rs:79-97 | From any move onward, with the placeholder recorded, the `min_ab` loop returns the first remaining score below `alpha`, else the last one, else `lowest_score`. |
| `MainSearchProofs.MinAbScore` | src/main.rs:66-98 | At depth ≥ 8 `min_ab` returns the un-negated `total_eval`. Below that it returns the first `max_ab` child score below `alpha`, else the last child score, else 120. |
| `MainSearchProofs.BetaIrrelevant` | src/main.rs:55-60 | `beta` is updated and passed down but never changes either search's result. |
| `MainSearchProofs.MaxAbFirst` | src/main.rs:45-57 | Below depth 8, `max_ab` returns the score of the first child that scores above `alpha`. |
| `MainSearchProofs.MaxAbLast` | src/main.rs:43-63 | Below depth 8, when no child scores above `alpha`, `max_ab` returns the last child's score, or -120 without children. |
| `MainSearchProofs.MinAbFirst` | src/main.rs:79-91 | Below depth 8, `min_ab` returns the score of the first child that scores below `alpha`. |
| `MainSearchProofs.MinAbLast` | src/main.rs:77-97 | Below depth 8, when no child scores below `alpha`, `min_ab` returns the last child's score, or 120 without children. |
| `MainSearchProofs.RootSearchMove` | src/main.rs:45-63 | The corrected root reports one of the legal moves together with that move's own score. |
| `MainSearchProofs.RootSearchBest` | src/main.rs:49-63 | If no root child exits early, the corrected root's score is no worse than any child's for the side to move. |
| `MainSearchProofs.RootScores` | src/main.rs:45-47 | Each root child's `max_ab` score is the same whatever `beta` the root passes down. |
| `MainSearchProofs.BestMoveCorrectedLegal` | src/main.rs:14-26 | The corrected `best_move` answers with a legal move of the position. |
| `MainSearchProofs.BestMoveCorrectedScore` | src/main.rs:14-26 | The score the corrected root reports is the `max_ab` score of the move it answers with. |
| `MainSearchProofs.BestMoveCorrectedBest` | src/main.rs:45-63 | When no root child exits early, the corrected root's score is the best child score for the side to move. |

## Findings

| source | as written | input that shows it | evidently intended | confidence | as-written member | corrected member |
|---|---|---|---|---|---|---|
| src/main.rs:47-57 | Each node stores and returns `the_move` from its child, never `possible_move`, so `best_move` always answers a1-a2 | any position where a1-a2 is not a legal move, e.g. the position in `main()` (a1 is empty) | the root answers with the legal move it applied that produced the reported score | high, not executed | `MainSearch.BestMove` | `MainSearch.BestMoveCorrected` |
| src/evaluator.rs:24 | The cutoff returns `-1 * total_eval`, positive in Black's favour, while `total_eval` and the seeds at lines 32 and 44 are positive in White's favour | a position where White mates in one: `max_depth` 1 scores it -120, `max_depth` 2 scores it 120 | the cutoff returns `total_eval` itself, so a mate scores the same at every depth | high, not executed | `Evaluator.GetEval` | `Evaluator.GetEvalCorrected` |

The corrected root (`MainSearch.RootSearch`) keeps the guards, the early
exits on `alpha` and the `beta` updates of `max_ab` and `min_ab`. It changes
two things:

- It records the move it applies.
- It uses `None`, not a real move, to mean "nothing recorded yet".

`MainSearchProofs.BestMoveCorrectedLegal` and `MainSearchProofs.BestMoveCorrectedScore` prove that it answers with a legal
move carrying that move's score.

`Evaluator.Minimax` takes the leaf sign as a parameter. `Evaluator.GetEval`
passes -1, as the code does, and `Evaluator.GetEvalCorrected` passes +1.
`LeafSign.MateInOneAsWritten` shows the mate in one scored both ways by
`get_eval`. `LeafSign.MateInOneCorrected` and `LeafSign.MatedNodeCorrected`
prove that the corrected search scores a mate the same at every depth.
`AlphaBeta.GetEvalCorrectedSound` shows the pruning is sound for either
sign.

## Left out

- Parsing the FEN text in `best_move` (`Board::from_str(...).unwrap()`) is not modelled. `BestMove` takes the board itself.
- `main()` and the diagnostic `println!` in main.rs's `total_eval` are left out as I/O.
- `src/uci.rs` is a stdin command loop and is left out.
- The internals of the `chess` crate are left out: move generation, `make_move_new`, `legal`, `status`, `null_move`, `king_square` and `checkers`. They are the opaque functions of `Chess.Rules`.
- `null_move()` is total in the model. The engine only calls it when the side to move is not in check, where the crate supplies it, so the `unwrap` panic is not modelled.
- Scores, `alpha` and `beta` are unbounded integers. Only the `as i8` casts of the move counts are modelled bit-exactly (`RustInt.CastI8`). The `i8` overflow of the later subtraction, of the three-term sum and of `-1 * total_eval` is not modelled. In debug builds it would panic and in release builds it would wrap. For realistic material and move counts these values stay within range.
- `Evaluator.MoveEvaluation`: the [-12, 12] range and the exact quotient are stated only when both counts are below 128. Above that the cast wraps, as `Evaluator.MoveEvaluationWraps` shows.
- `Evaluator::new` only stores `max_depth`. It is the `Evaluator.Config` constructor.
- The unused locals `top_board` and `lowest_board` and the unused `index` from `enumerate()` have no behaviour and are left out.
