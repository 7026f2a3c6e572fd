/**
 The sign convention of `get_eval`'s leaves. The static evaluation scores a
 mate against the side to move as -120 when White is mated and 120 when
 Black is, and a node without moves is seeded with the same White-positive
 -120/120; but the cutoff returns `-1 * total_eval`, so whether a mate is
 scored as a win or a loss depends on whether it lies at the cutoff.
 */
module LeafSign {
  import opened Chess
  import opened RustInt
  import opened Evaluator

  /**
   A two-position game: in position 0 White is to move and has one move,
   which reaches position 1, where Black is checkmated.
   */
  function MateInOne(): Rules<int> {
    Rules(
      b => if b == 0 then [Move(Square(0, 6), Square(0, 7), None)] else [],
      (b, m) => 1,
      b => if b == 0 then Ongoing else Checkmate,
      b => if b == 0 then White else Black,
      (b, c) => [],
      (b, c) => Square(4, if c == White then 0 else 7),
      (b, m) => false,
      b => b != 0,
      b => b)
  }

  /**
   As written, White's mate in one scores -120, the worst score for White,
   when the mated position lies at the cutoff (`max_depth` 1), and 120 when
   it lies one ply above it (`max_depth` 2).
   */
  lemma MateInOneAsWritten()
    ensures GetEval(MateInOne(), Config(1), 0) == -120
    ensures GetEval(MateInOne(), Config(2), 0) == 120
  {
    var r := MateInOne();
    assert r.makeMove(0, r.legalMoves(0)[0]) == 1;
    assert TotalEval(r, 1) == 120;
    assert Minimax(r, Config(1), -1, 1, 1, -120, 120, false) == -120;
    assert MaxLoop(r, Config(1), -1, 0, 0, r.legalMoves(0), 1, -120, -120, 120) == -120;
  }

  /** With White-positive leaves the mate in one scores 120 at both depths. */
  lemma MateInOneCorrected()
    ensures GetEvalCorrected(MateInOne(), Config(1), 0) == 120
    ensures GetEvalCorrected(MateInOne(), Config(2), 0) == 120
  {
  }

  /**
   As written, a checkmated node searched for the side to move scores the
   opposite of its seed when it lies at the cutoff.
   */
  lemma MatedNodeAsWritten<B>(r: Rules<B>, e: Config, depth: U8, b: B, alpha: int, beta: int)
    requires r.status(b) == Checkmate && r.legalMoves(b) == []
    ensures var isMax := r.sideToMove(b) == White;
            Minimax(r, e, -1, depth, b, alpha, beta, isMax)
              == (if depth >= e.maxDepth then (if isMax then 120 else -120) else (if isMax then -120 else 120))
  {
  }

  /**
   With White-positive leaves a checkmated node searched for the side to move
   scores the same at every depth: -120 when White is mated, 120 when Black is.
   */
  lemma MatedNodeCorrected<B>(r: Rules<B>, e: Config, depth: U8, b: B, alpha: int, beta: int)
    requires r.status(b) == Checkmate && r.legalMoves(b) == []
    ensures var isMax := r.sideToMove(b) == White;
            Minimax(r, e, 1, depth, b, alpha, beta, isMax) == (if isMax then -120 else 120)
  {
  }
}
