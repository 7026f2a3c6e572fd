/**
 The stand-alone search of `src/main.rs`: `best_move`, `max_ab`, `min_ab` and
 that file's own copy of the static evaluation. The per-colour loops of the
 copy (material and king steps) are the same text as in `src/evaluator.rs`,
 so they reuse `Evaluator.Material`, `Evaluator.KingSteps` and
 `Evaluator.AvailableSteps`; the functions that combine them are written out
 here, and each one's contract states that it agrees with the `Evaluator`
 version.
 */
module MainSearch {
  import opened Chess
  import opened RustInt
  import Evaluator

  /** The depth at which `max_ab` and `min_ab` stop and evaluate. */
  const CutoffDepth: U8 := 8

  /** `empty_move`: the placeholder move a1 to a2 without promotion. */
  function EmptyMove(): Move {
    Move(Square(0, 0), Square(0, 1), None)
  }

  // ---------------------------------------------------------------------
  // The evaluation copied into main.rs
  // ---------------------------------------------------------------------

  function PieceEvaluation<B>(r: Rules<B>, b: B): (p: int)
    ensures p == Evaluator.PieceEvaluation(r, b)
  {
    var whiteScore := Evaluator.Material(r.pieces(b, White));
    var blackScore := Evaluator.Material(r.pieces(b, Black));
    whiteScore - blackScore
  }

  function KingEvaluation<B>(r: Rules<B>, b: B): (k: int)
    ensures k == Evaluator.KingEvaluation(r, b)
  {
    var whiteSq := r.kingSquare(b, White);
    var blackSq := r.kingSquare(b, Black);
    var whiteAvailable := Evaluator.AvailableSteps(r, b, whiteSq, Evaluator.KingSteps(whiteSq));
    var blackAvailable := Evaluator.AvailableSteps(r, b, blackSq, Evaluator.KingSteps(blackSq));
    TruncDiv(whiteAvailable - blackAvailable, 16)
  }

  function MoveEvaluation<B>(r: Rules<B>, b: B): (m: int)
    ensures m == Evaluator.MoveEvaluation(r, b)
  {
    if r.inCheck(b) then 0
    else if r.sideToMove(b) == White then
      TruncDiv(CastI8(|r.legalMoves(b)|) - CastI8(|r.legalMoves(r.nullMove(b))|), 10)
    else
      TruncDiv(CastI8(|r.legalMoves(r.nullMove(b))|) - CastI8(|r.legalMoves(b)|), 10)
  }

  function TotalEval<B>(r: Rules<B>, b: B): (s: int)
    ensures s == Evaluator.TotalEval(r, b)
  {
    if r.status(b) == Stalemate then 0
    else if r.status(b) == Checkmate then
      if r.sideToMove(b) == White then -120 else 120
    else
      var pieceEval := PieceEvaluation(r, b);
      var kingEval := KingEvaluation(r, b);
      var moveEval := MoveEvaluation(r, b);
      pieceEval + moveEval + kingEval
  }

  // ---------------------------------------------------------------------
  // Search
  // ---------------------------------------------------------------------

  /**
   `max_ab`: at depth 8 the (un-negated) static evaluation; otherwise the loop
   over the legal moves, each child searched with `max_ab` one ply deeper.
   */
  function MaxAb<B>(r: Rules<B>, b: B, alpha: int, beta: int, depth: U8): (res: (Move, int))
    decreases CutoffDepth - depth, 1, 0
    ensures res.0 == EmptyMove()
    ensures depth >= CutoffDepth ==> res.1 == Evaluator.TotalEval(r, b)
    ensures depth < CutoffDepth && r.legalMoves(b) == [] ==> res.1 == -120
  {
    if depth >= CutoffDepth then (EmptyMove(), TotalEval(r, b))
    else MaxAbLoop(r, b, r.legalMoves(b), 0, alpha, beta, depth, EmptyMove(), -120)
  }

  /**
   The loop of `max_ab` from move `i` on with the current `beta`, `top_move`
   and `top_score`. It returns at the first child scoring above `alpha`.
   */
  function MaxAbLoop<B>(r: Rules<B>, b: B, moves: seq<Move>, i: nat, alpha: int, beta: int, depth: U8,
                        topMove: Move, topScore: int): (res: (Move, int))
    requires depth < CutoffDepth && i <= |moves|
    decreases CutoffDepth - depth, 0, |moves| - i
    ensures topMove == EmptyMove() ==> res.0 == EmptyMove()
  {
    if i == |moves| then (topMove, topScore)
    else
      var (theMove, score) := MaxAb(r, r.makeMove(b, moves[i]), alpha, beta, depth + 1);
      var (topMove', topScore') :=
        if score > topScore || topMove == EmptyMove() then (theMove, score) else (topMove, topScore);
      if score > alpha then (theMove, topScore')
      else
        var beta' := if score > beta then score else beta;
        MaxAbLoop(r, b, moves, i + 1, alpha, beta', depth, topMove', topScore')
  }

  /**
   `min_ab`: at depth 8 the static evaluation; otherwise the loop over the
   legal moves, each child again searched with `max_ab`.
   */
  function MinAb<B>(r: Rules<B>, b: B, alpha: int, beta: int, depth: U8): (res: (Move, int))
    ensures res.0 == EmptyMove()
    ensures depth >= CutoffDepth ==> res.1 == Evaluator.TotalEval(r, b)
    ensures depth < CutoffDepth && r.legalMoves(b) == [] ==> res.1 == 120
  {
    if depth >= CutoffDepth then (EmptyMove(), TotalEval(r, b))
    else MinAbLoop(r, b, r.legalMoves(b), 0, alpha, beta, depth, EmptyMove(), 120)
  }

  /**
   The loop of `min_ab` from move `i` on with the current `beta`,
   `lowest_move` and `lowest_score`. It returns at the first child scoring
   below `alpha`.
   */
  function MinAbLoop<B>(r: Rules<B>, b: B, moves: seq<Move>, i: nat, alpha: int, beta: int, depth: U8,
                        lowestMove: Move, lowestScore: int): (res: (Move, int))
    requires depth < CutoffDepth && i <= |moves|
    decreases |moves| - i
    ensures lowestMove == EmptyMove() ==> res.0 == EmptyMove()
  {
    if i == |moves| then (lowestMove, lowestScore)
    else
      var (theMove, score) := MaxAb(r, r.makeMove(b, moves[i]), alpha, beta, depth + 1);
      var (lowestMove', lowestScore') :=
        if score < lowestScore || lowestMove == EmptyMove() then (theMove, score) else (lowestMove, lowestScore);
      if score < alpha then (theMove, lowestScore')
      else
        var beta' := if score < beta then score else beta;
        MinAbLoop(r, b, moves, i + 1, alpha, beta', depth, lowestMove', lowestScore')
  }

  /**
   `best_move` as written: `max_ab(board, 125, -125, 0)` when White is to move,
   else `min_ab(board, -125, 125, 0)`, keeping only the move. Since every node
   passes up its child's move, the answer is always the placeholder.
   */
  function BestMove<B>(r: Rules<B>, b: B): (m: Move)
    ensures m == EmptyMove()
    ensures EmptyMove() !in r.legalMoves(b) ==> m !in r.legalMoves(b)
  {
    if r.sideToMove(b) == White then MaxAb(r, b, 125, -125, 0).0
    else MinAb(r, b, -125, 125, 0).0
  }

  /**
   The root loop of `best_move` as evidently intended: the same guards and
   early exits as `max_ab` (when `maximizing`) or `min_ab`, but recording the
   move applied at the root instead of the move the child passed up, and
   using `None` rather than a real move as the "nothing recorded yet" mark.
   */
  function RootSearch<B>(r: Rules<B>, b: B, moves: seq<Move>, i: nat, alpha: int, beta: int, depth: U8,
                         maximizing: bool, top: Option<Move>, topScore: int): (res: (Option<Move>, int))
    requires depth < CutoffDepth && i <= |moves|
    decreases |moves| - i
    ensures res.0.Some? <==> top.Some? || i < |moves|
  {
    if i == |moves| then (top, topScore)
    else
      var score := MaxAb(r, r.makeMove(b, moves[i]), alpha, beta, depth + 1).1;
      var better := if maximizing then score > topScore else score < topScore;
      var (top', topScore') := if better || top.None? then (Some(moves[i]), score) else (top, topScore);
      var exits := if maximizing then score > alpha else score < alpha;
      if exits then (Some(moves[i]), topScore')
      else
        var beta' := if maximizing then (if score > beta then score else beta)
                     else (if score < beta then score else beta);
        RootSearch(r, b, moves, i + 1, alpha, beta', depth, maximizing, top', topScore')
  }

  /** `best_move` with the root move recorded; `None` only when there is no legal move. */
  function BestMoveCorrected<B>(r: Rules<B>, b: B): (m: Option<Move>)
    ensures m.Some? <==> r.legalMoves(b) != []
  {
    if r.sideToMove(b) == White then RootSearch(r, b, r.legalMoves(b), 0, 125, -125, 0, true, None, -120).0
    else RootSearch(r, b, r.legalMoves(b), 0, -125, 125, 0, false, None, 120).0
  }
}
