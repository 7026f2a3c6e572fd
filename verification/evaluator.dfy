/**
 `Evaluator` of `src/evaluator.rs`: a depth-bounded minimax search with
 alpha-beta pruning, and the static evaluation it calls at the depth cutoff.
 The static evaluation and the -120/120 seeds of nodes without moves are
 positive in White's favour, but `get_eval` negates the evaluation at the
 cutoff, so its leaf values are positive in Black's favour. `Minimax` takes
 the leaf sign as a parameter: -1 is the program as written, +1 the
 consistent convention (`GetEvalCorrected`).
 */
module Evaluator {
  import opened Chess
  import opened RustInt

  /** The fields of `struct Evaluator`: the depth at which the search stops. */
  datatype Config = Config(maxDepth: U8)

  // ---------------------------------------------------------------------
  // Material
  // ---------------------------------------------------------------------

  /** Weight of one piece in `piece_evaluation`. */
  function Weight(p: Piece): nat {
    match p
    case Pawn => 1
    case Knight => 3
    case Bishop => 3
    case Rook => 5
    case Queen => 9
    case King => 0
  }

  /** The running sum of `piece_evaluation`'s loop over one colour's pieces. */
  function Material(s: seq<Piece>): (m: nat)
    ensures m <= 9 * |s|
  {
    if s == [] then 0 else Weight(s[0]) + Material(s[1..])
  }

  /** Material by piece counts: the value depends only on how many of each kind there are. */
  function WeightedCount(ms: multiset<Piece>): nat {
    ms[Pawn] + 3 * ms[Knight] + 3 * ms[Bishop] + 5 * ms[Rook] + 9 * ms[Queen]
  }

  lemma {:induction false} MaterialByCounts(s: seq<Piece>)
    ensures Material(s) == WeightedCount(multiset(s))
  {
    if s != [] {
      MaterialByCounts(s[1..]);
      assert s == [s[0]] + s[1..];
      assert multiset(s) == multiset{s[0]} + multiset(s[1..]);
    }
  }

  /** Two lists holding the same pieces in any order have the same material. */
  lemma MaterialPermutation(s: seq<Piece>, t: seq<Piece>)
    requires multiset(s) == multiset(t)
    ensures Material(s) == Material(t)
  {
    MaterialByCounts(s);
    MaterialByCounts(t);
  }

  /** `piece_evaluation`: White's weighted pieces minus Black's. */
  function PieceEvaluation<B>(r: Rules<B>, b: B): (p: int)
    ensures p == WeightedCount(multiset(r.pieces(b, White))) - WeightedCount(multiset(r.pieces(b, Black)))
  {
    MaterialByCounts(r.pieces(b, White));
    MaterialByCounts(r.pieces(b, Black));
    Material(r.pieces(b, White)) - Material(r.pieces(b, Black))
  }

  /** Exchanging the two colours' pieces negates the material term. */
  lemma PieceEvaluationColourSwap<B>(r: Rules<B>, b: B, b': B)
    requires multiset(r.pieces(b', White)) == multiset(r.pieces(b, Black))
    requires multiset(r.pieces(b', Black)) == multiset(r.pieces(b, White))
    ensures PieceEvaluation(r, b') == -PieceEvaluation(r, b)
  {
  }

  // ---------------------------------------------------------------------
  // King mobility
  // ---------------------------------------------------------------------

  /** The four orthogonal neighbours `[up, down, left, right]` of a king square. */
  function KingSteps(k: Square): seq<Option<Square>> {
    [Up(k), Down(k), Left(k), Right(k)]
  }

  /** How many of `steps` are squares on the board at all. */
  function CountSome(steps: seq<Option<Square>>): (n: nat)
    ensures n <= |steps|
  {
    if steps == [] then 0 else (if steps[0].Some? then 1 else 0) + CountSome(steps[1..])
  }

  /** How many of `steps` exist on the board and are legal king moves from `k`. */
  function AvailableSteps<B>(r: Rules<B>, b: B, k: Square, steps: seq<Option<Square>>): (n: nat)
    ensures n <= CountSome(steps) <= |steps|
    ensures n == 0 <== (forall j :: 0 <= j < |steps| ==> steps[j].None?)
  {
    if steps == [] then 0
    else
      var here := if steps[0].Some? && r.legal(b, Move(k, steps[0].value, None)) then 1 else 0;
      here + AvailableSteps(r, b, k, steps[1..])
  }

  /** The count `king_evaluation` computes for one colour. */
  function KingMobility<B>(r: Rules<B>, b: B, c: Color): (n: nat)
    ensures n <= 4
  {
    var k := r.kingSquare(b, c);
    AvailableSteps(r, b, k, KingSteps(k))
  }

  /** `king_evaluation`: the mobility difference truncated by 16, which is always zero. */
  function KingEvaluation<B>(r: Rules<B>, b: B): (k: int)
    ensures k == 0
  {
    TruncDiv(KingMobility(r, b, White) - KingMobility(r, b, Black), 16)
  }

  // ---------------------------------------------------------------------
  // Total mobility
  // ---------------------------------------------------------------------

  /**
   The legal-move count attributed to colour `c`: taken from the board itself
   for the side to move and from the null-move board for the other side.
   */
  function Mobility<B>(r: Rules<B>, b: B, c: Color): nat {
    if r.sideToMove(b) == c then |r.legalMoves(b)| else |r.legalMoves(r.nullMove(b))|
  }

  /** `move_evaluation`: zero in check, else the (i8-cast) count difference truncated by 10. */
  function MoveEvaluation<B>(r: Rules<B>, b: B): (m: int)
    ensures r.inCheck(b) ==> m == 0
    ensures -25 <= m <= 25
    ensures !r.inCheck(b) && Mobility(r, b, White) < 128 && Mobility(r, b, Black) < 128 ==>
              m == TruncDiv(Mobility(r, b, White) - Mobility(r, b, Black), 10) && -12 <= m <= 12
  {
    if r.inCheck(b) then 0
    else
      var whiteMoves := if r.sideToMove(b) == White then CastI8(|r.legalMoves(b)|)
                        else CastI8(|r.legalMoves(r.nullMove(b))|);
      var blackMoves := if r.sideToMove(b) == White then CastI8(|r.legalMoves(r.nullMove(b))|)
                        else CastI8(|r.legalMoves(b)|);
      TruncDiv(whiteMoves - blackMoves, 10)
  }

  /**
   The `as i8` cast is a hazard: 130 White moves against none for Black
   score as -12, not 13, because 130 wraps to -126.
   */
  lemma MoveEvaluationWraps<B>(r: Rules<B>, b: B)
    requires !r.inCheck(b)
    requires Mobility(r, b, White) == 130 && Mobility(r, b, Black) == 0
    ensures MoveEvaluation(r, b) == -12
    ensures TruncDiv(Mobility(r, b, White) - Mobility(r, b, Black), 10) == 13
  {
  }

  // ---------------------------------------------------------------------
  // Static evaluation
  // ---------------------------------------------------------------------

  /** `total_eval`: terminal scores for stalemate and mate, otherwise the sum of the three terms. */
  function TotalEval<B>(r: Rules<B>, b: B): (s: int)
    ensures r.status(b) == Stalemate ==> s == 0
    ensures r.status(b) == Checkmate ==> s == (if r.sideToMove(b) == White then -120 else 120)
    ensures r.status(b) == Ongoing ==> s == PieceEvaluation(r, b) + MoveEvaluation(r, b)
  {
    if r.status(b) == Stalemate then 0
    else if r.status(b) == Checkmate then
      if r.sideToMove(b) == White then -120 else 120
    else
      var pieceEval := PieceEvaluation(r, b);
      var kingEval := KingEvaluation(r, b);
      var moveEval := MoveEvaluation(r, b);
      pieceEval + moveEval + kingEval
  }

  // ---------------------------------------------------------------------
  // Search
  // ---------------------------------------------------------------------

  function Max(a: int, b: int): int { if a >= b then a else b }

  function Min(a: int, b: int): int { if a <= b then a else b }

  /**
   `minimax`: at the cutoff the static evaluation times `leafSign`; otherwise the loop
   over the legal moves, seeded with -120 when maximising and 120 when minimising.
   */
  function Minimax<B>(r: Rules<B>, e: Config, leafSign: int, depth: U8, b: B, alpha: int, beta: int, isMax: bool): (v: int)
    decreases e.maxDepth - depth, 1, 0
    ensures depth >= e.maxDepth ==> v == leafSign * TotalEval(r, b)
    ensures depth < e.maxDepth && isMax ==> v >= -120
    ensures depth < e.maxDepth && !isMax ==> v <= 120
    ensures depth < e.maxDepth && r.legalMoves(b) == [] ==> v == (if isMax then -120 else 120)
  {
    if depth >= e.maxDepth then leafSign * TotalEval(r, b)
    else if isMax then MaxLoop(r, e, leafSign, depth, b, r.legalMoves(b), 0, -120, alpha, beta)
    else MinLoop(r, e, leafSign, depth, b, r.legalMoves(b), 0, 120, alpha, beta)
  }

  /**
   The maximising `for` loop from move `i` on, with the running `best_eval`
   and `alpha`; it stops as soon as `beta <= alpha`.
   */
  function MaxLoop<B>(r: Rules<B>, e: Config, leafSign: int, depth: U8, b: B, moves: seq<Move>, i: nat,
                      best: int, alpha: int, beta: int): (v: int)
    requires depth < e.maxDepth && i <= |moves|
    decreases e.maxDepth - depth, 0, |moves| - i
    ensures v >= best
  {
    if i == |moves| then best
    else
      var best' := Max(best, Minimax(r, e, leafSign, depth + 1, r.makeMove(b, moves[i]), alpha, beta, false));
      var alpha' := Max(alpha, best');
      if beta <= alpha' then best'
      else MaxLoop(r, e, leafSign, depth, b, moves, i + 1, best', alpha', beta)
  }

  /**
   The minimising `for` loop from move `i` on, with the running `best_eval`
   and `beta`; it stops as soon as `beta <= alpha`.
   */
  function MinLoop<B>(r: Rules<B>, e: Config, leafSign: int, depth: U8, b: B, moves: seq<Move>, i: nat,
                      best: int, alpha: int, beta: int): (v: int)
    requires depth < e.maxDepth && i <= |moves|
    decreases e.maxDepth - depth, 0, |moves| - i
    ensures v <= best
  {
    if i == |moves| then best
    else
      var best' := Min(best, Minimax(r, e, leafSign, depth + 1, r.makeMove(b, moves[i]), alpha, beta, true));
      var beta' := Min(beta, best');
      if beta' <= alpha then best'
      else MinLoop(r, e, leafSign, depth, b, moves, i + 1, best', alpha, beta')
  }

  /**
   `get_eval`: search from depth 0 with window (-120, 120), maximising iff
   White moves. `AlphaBeta.GetEvalSound` relates it to the unpruned value.
   */
  function GetEval<B>(r: Rules<B>, e: Config, b: B): (v: int)
    ensures e.maxDepth == 0 ==> v == -TotalEval(r, b)
    ensures e.maxDepth > 0 && r.sideToMove(b) == White ==> v >= -120
    ensures e.maxDepth > 0 && r.sideToMove(b) != White ==> v <= 120
    ensures e.maxDepth > 0 && r.legalMoves(b) == [] ==> v == (if r.sideToMove(b) == White then -120 else 120)
  {
    var isMaximizing := r.sideToMove(b) == White;
    Minimax(r, e, -1, 0, b, -120, 120, isMaximizing)
  }

  /**
   `get_eval` with the leaf values in the same White-positive convention as
   the evaluation and the seeds: the cutoff returns `total_eval` itself.
   */
  function GetEvalCorrected<B>(r: Rules<B>, e: Config, b: B): (v: int)
    ensures e.maxDepth == 0 ==> v == TotalEval(r, b)
    ensures e.maxDepth > 0 && r.sideToMove(b) == White ==> v >= -120
    ensures e.maxDepth > 0 && r.sideToMove(b) != White ==> v <= 120
    ensures e.maxDepth > 0 && r.legalMoves(b) == [] ==> v == (if r.sideToMove(b) == White then -120 else 120)
  {
    Minimax(r, e, 1, 0, b, -120, 120, r.sideToMove(b) == White)
  }
}
