/**
 Soundness of `Evaluator.Minimax`'s pruning: against an unpruned minimax with
 the same leaf values (the negated static evaluation), the same -120/120
 seeds and the same alternation of plies, the pruned search is a fail-soft
 alpha-beta search.
 */
module AlphaBeta {
  import opened Chess
  import opened RustInt
  import opened Evaluator

  /** The unpruned game value: every legal move is examined at every ply. */
  function Value<B>(r: Rules<B>, e: Config, leafSign: int, depth: U8, b: B, isMax: bool): int
    decreases e.maxDepth - depth, 1, 0
  {
    if depth >= e.maxDepth then leafSign * TotalEval(r, b)
    else if isMax then ValueMax(r, e, leafSign, depth, b, r.legalMoves(b), 0, -120)
    else ValueMin(r, e, leafSign, depth, b, r.legalMoves(b), 0, 120)
  }

  /** `acc` maximised with the values of the children reached by `moves[i..]`. */
  function ValueMax<B>(r: Rules<B>, e: Config, leafSign: int, depth: U8, b: B, moves: seq<Move>, i: nat, acc: int): (v: int)
    requires depth < e.maxDepth && i <= |moves|
    decreases e.maxDepth - depth, 0, |moves| - i
    ensures v >= acc
    ensures forall j :: i <= j < |moves| ==> v >= Value(r, e, leafSign, depth + 1, r.makeMove(b, moves[j]), false)
  {
    if i == |moves| then acc
    else ValueMax(r, e, leafSign, depth, b, moves, i + 1, Max(acc, Value(r, e, leafSign, depth + 1, r.makeMove(b, moves[i]), false)))
  }

  /** `acc` minimised with the values of the children reached by `moves[i..]`. */
  function ValueMin<B>(r: Rules<B>, e: Config, leafSign: int, depth: U8, b: B, moves: seq<Move>, i: nat, acc: int): (v: int)
    requires depth < e.maxDepth && i <= |moves|
    decreases e.maxDepth - depth, 0, |moves| - i
    ensures v <= acc
    ensures forall j :: i <= j < |moves| ==> v <= Value(r, e, leafSign, depth + 1, r.makeMove(b, moves[j]), true)
  {
    if i == |moves| then acc
    else ValueMin(r, e, leafSign, depth, b, moves, i + 1, Min(acc, Value(r, e, leafSign, depth + 1, r.makeMove(b, moves[i]), true)))
  }

  /**
   Fail-soft alpha-beta: a result at or below `alpha` is an upper bound on the
   true value, one at or above `beta` a lower bound, and one strictly inside
   the window is the true value.
   */
  predicate FailSoft(res: int, v: int, alpha: int, beta: int) {
    && (res <= alpha ==> v <= res)
    && (res >= beta ==> res <= v)
    && (alpha < res < beta ==> res == v)
  }

  lemma {:induction false} MinimaxFailSoft<B>(r: Rules<B>, e: Config, leafSign: int, depth: U8, b: B, alpha: int, beta: int, isMax: bool)
    requires alpha < beta
    decreases e.maxDepth - depth, 1, 0
    ensures FailSoft(Minimax(r, e, leafSign, depth, b, alpha, beta, isMax), Value(r, e, leafSign, depth, b, isMax), alpha, beta)
  {
    if depth >= e.maxDepth {
    } else if isMax {
      MaxLoopFailSoft(r, e, leafSign, depth, b, r.legalMoves(b), 0, -120, -120, alpha, alpha, beta);
    } else {
      MinLoopFailSoft(r, e, leafSign, depth, b, r.legalMoves(b), 0, 120, 120, alpha, beta, beta);
    }
  }

  /**
   The maximising loop. `best` is the pruned running maximum and `acc` the
   exact one; `alpha0` is the window the node was called with and `alpha` the
   raised bound passed to the remaining children.
   */
  lemma {:induction false} MaxLoopFailSoft<B>(r: Rules<B>, e: Config, leafSign: int, depth: U8, b: B, moves: seq<Move>, i: nat,
                           best: int, acc: int, alpha0: int, alpha: int, beta: int)
    requires depth < e.maxDepth && i <= |moves|
    requires alpha0 <= alpha < beta && alpha <= Max(alpha0, best)
    requires acc <= best && (best > alpha0 ==> best == acc)
    decreases e.maxDepth - depth, 0, |moves| - i
    ensures FailSoft(MaxLoop(r, e, leafSign, depth, b, moves, i, best, alpha, beta),
                     ValueMax(r, e, leafSign, depth, b, moves, i, acc), alpha0, beta)
  {
    if i < |moves| {
      var child := r.makeMove(b, moves[i]);
      var res := Minimax(r, e, leafSign, depth + 1, child, alpha, beta, false);
      var v := Value(r, e, leafSign, depth + 1, child, false);
      MinimaxFailSoft(r, e, leafSign, depth + 1, child, alpha, beta, false);
      var best' := Max(best, res);
      var acc' := Max(acc, v);
      var alpha' := Max(alpha, best');
      if beta <= alpha' {
        assert best' >= beta;
        assert ValueMax(r, e, leafSign, depth, b, moves, i + 1, acc') >= acc' >= best';
      } else {
        assert v <= res;
        MaxLoopFailSoft(r, e, leafSign, depth, b, moves, i + 1, best', acc', alpha0, alpha', beta);
      }
    }
  }

  /** The minimising loop, symmetric to `MaxLoopFailSoft` with the roles of the bounds exchanged. */
  lemma {:induction false} MinLoopFailSoft<B>(r: Rules<B>, e: Config, leafSign: int, depth: U8, b: B, moves: seq<Move>, i: nat,
                           best: int, acc: int, alpha: int, beta0: int, beta: int)
    requires depth < e.maxDepth && i <= |moves|
    requires alpha < beta <= beta0 && Min(beta0, best) <= beta
    requires acc >= best && (best < beta0 ==> best == acc)
    decreases e.maxDepth - depth, 0, |moves| - i
    ensures FailSoft(MinLoop(r, e, leafSign, depth, b, moves, i, best, alpha, beta),
                     ValueMin(r, e, leafSign, depth, b, moves, i, acc), alpha, beta0)
  {
    if i < |moves| {
      var child := r.makeMove(b, moves[i]);
      var res := Minimax(r, e, leafSign, depth + 1, child, alpha, beta, true);
      var v := Value(r, e, leafSign, depth + 1, child, true);
      MinimaxFailSoft(r, e, leafSign, depth + 1, child, alpha, beta, true);
      var best' := Min(best, res);
      var acc' := Min(acc, v);
      var beta' := Min(beta, best');
      if beta' <= alpha {
        assert best' <= alpha;
        assert ValueMin(r, e, leafSign, depth, b, moves, i + 1, acc') <= acc' <= best';
      } else {
        assert v >= res;
        MinLoopFailSoft(r, e, leafSign, depth, b, moves, i + 1, best', acc', alpha, beta0, beta');
      }
    }
  }

  /**
   Alpha-beta agrees with unpruned minimax inside the window, and on the
   correct side of it outside.
   */
  lemma MinimaxWindow<B>(r: Rules<B>, e: Config, leafSign: int, depth: U8, b: B, alpha: int, beta: int, isMax: bool)
    requires alpha < beta
    ensures var v := Value(r, e, leafSign, depth, b, isMax);
            var res := Minimax(r, e, leafSign, depth, b, alpha, beta, isMax);
            && (alpha < v < beta ==> res == v)
            && (v <= alpha ==> res <= alpha)
            && (v >= beta ==> res >= beta)
  {
    MinimaxFailSoft(r, e, leafSign, depth, b, alpha, beta, isMax);
  }

  /**
   `get_eval`'s result: the unpruned value of the root, with negated leaves
   and searched maximising iff White is to move, whenever that value lies
   strictly between -120 and 120.
   */
  lemma GetEvalSound<B>(r: Rules<B>, e: Config, b: B)
    ensures var v := Value(r, e, -1, 0, b, r.sideToMove(b) == White);
            && (-120 < v < 120 ==> GetEval(r, e, b) == v)
            && (v <= -120 ==> GetEval(r, e, b) <= -120)
            && (v >= 120 ==> GetEval(r, e, b) >= 120)
  {
    MinimaxWindow(r, e, -1, 0, b, -120, 120, r.sideToMove(b) == White);
  }

  /** The same soundness for the corrected `get_eval`, whose leaves are not negated. */
  lemma GetEvalCorrectedSound<B>(r: Rules<B>, e: Config, b: B)
    ensures var v := Value(r, e, 1, 0, b, r.sideToMove(b) == White);
            && (-120 < v < 120 ==> GetEvalCorrected(r, e, b) == v)
            && (v <= -120 ==> GetEvalCorrected(r, e, b) <= -120)
            && (v >= 120 ==> GetEvalCorrected(r, e, b) >= 120)
  {
    MinimaxWindow(r, e, 1, 0, b, -120, 120, r.sideToMove(b) == White);
  }
}
