/**
 What `max_ab`, `min_ab` and `best_move` of `src/main.rs` actually compute.

 Every leaf returns `empty_move()` and every node passes up a child's move, so
 `top_move == empty_move()` holds at every update and the guard always
 fires: a node's score is that of the first child beyond `alpha` (above it
 for `max_ab`, below it for `min_ab`), else that of the last child, else the
 seed. `beta` is updated and passed down but never decides anything.
 */
module MainSearchProofs {
  import opened Chess
  import opened RustInt
  import opened MainSearch

  /** Whether a child's score triggers the early return: above `alpha` for `max_ab`, below it for `min_ab`. */
  predicate Exceeds(s: int, alpha: int, above: bool) {
    if above then s > alpha else s < alpha
  }

  /**
   The score a node settles on given its children's scores in order: the
   first that exceeds `alpha`, else the last, else `seed` when there are none.
   */
  function Pick(s: seq<int>, alpha: int, above: bool, seed: int): int {
    if s == [] then seed
    else if Exceeds(s[0], alpha, above) then s[0]
    else Pick(s[1..], alpha, above, s[0])
  }

  /** `Pick` returns the first score beyond `alpha` when there is one. */
  lemma {:induction false} PickFirst(s: seq<int>, alpha: int, above: bool, seed: int, k: nat)
    requires k < |s| && Exceeds(s[k], alpha, above)
    requires forall j :: 0 <= j < k ==> !Exceeds(s[j], alpha, above)
    ensures Pick(s, alpha, above, seed) == s[k]
  {
    if k > 0 {
      PickFirst(s[1..], alpha, above, s[0], k - 1);
    }
  }

  /** With no score beyond `alpha`, `Pick` returns the last score, or the seed when there are none. */
  lemma {:induction false} PickLast(s: seq<int>, alpha: int, above: bool, seed: int)
    requires forall j :: 0 <= j < |s| ==> !Exceeds(s[j], alpha, above)
    ensures Pick(s, alpha, above, seed) == (if s == [] then seed else s[|s| - 1])
  {
    if s != [] {
      PickLast(s[1..], alpha, above, s[0]);
    }
  }

  /** The score `max_ab(board, alpha, _, depth)` returns, whatever `beta` it is given. */
  function ScoreMax<B>(r: Rules<B>, b: B, alpha: int, depth: U8): int
    decreases CutoffDepth - depth, 1, 0
  {
    if depth >= CutoffDepth then TotalEval(r, b)
    else Pick(ChildScores(r, b, r.legalMoves(b), alpha, depth), alpha, true, -120)
  }

  /** The `max_ab` scores of the children of `b` reached by `moves`, in order. */
  function ChildScores<B>(r: Rules<B>, b: B, moves: seq<Move>, alpha: int, depth: U8): (s: seq<int>)
    requires depth < CutoffDepth
    decreases CutoffDepth - depth, 0, |moves|
    ensures |s| == |moves|
    ensures forall j :: 0 <= j < |moves| ==> s[j] == ScoreMax(r, r.makeMove(b, moves[j]), alpha, depth + 1)
  {
    if moves == [] then []
    else [ScoreMax(r, r.makeMove(b, moves[0]), alpha, depth + 1)] + ChildScores(r, b, moves[1..], alpha, depth)
  }

  lemma {:induction false} MaxAbScore<B>(r: Rules<B>, b: B, alpha: int, beta: int, depth: U8)
    decreases CutoffDepth - depth, 1, 0
    ensures MaxAb(r, b, alpha, beta, depth) == (EmptyMove(), ScoreMax(r, b, alpha, depth))
  {
    if depth < CutoffDepth {
      var s := ChildScores(r, b, r.legalMoves(b), alpha, depth);
      MaxAbLoopScore(r, b, r.legalMoves(b), 0, alpha, beta, depth, -120);
      assert s[0..] == s;
    }
  }

  lemma {:induction false} MaxAbLoopScore<B>(r: Rules<B>, b: B, moves: seq<Move>, i: nat, alpha: int, beta: int,
                                             depth: U8, topScore: int)
    requires moves == r.legalMoves(b)
    requires depth < CutoffDepth && i <= |moves|
    decreases CutoffDepth - depth, 0, |moves| - i
    ensures MaxAbLoop(r, b, moves, i, alpha, beta, depth, EmptyMove(), topScore)
            == (EmptyMove(), Pick(ChildScores(r, b, r.legalMoves(b), alpha, depth)[i..], alpha, true, topScore))
  {
    var s := ChildScores(r, b, r.legalMoves(b), alpha, depth);
    if i < |moves| {
      var child := r.makeMove(b, moves[i]);
      MaxAbScore(r, child, alpha, beta, depth + 1);
      var score := MaxAb(r, child, alpha, beta, depth + 1).1;
      assert score == s[i];
      assert s[i..][0] == s[i] && s[i..][1..] == s[i + 1..];
      if !Exceeds(score, alpha, true) {
        var beta' := if score > beta then score else beta;
        MaxAbLoopScore(r, b, moves, i + 1, alpha, beta', depth, score);
      }
    }
  }

  lemma {:induction false} MinAbLoopScore<B>(r: Rules<B>, b: B, moves: seq<Move>, i: nat, alpha: int, beta: int,
                                             depth: U8, lowestScore: int)
    requires moves == r.legalMoves(b)
    requires depth < CutoffDepth && i <= |moves|
    decreases |moves| - i
    ensures MinAbLoop(r, b, moves, i, alpha, beta, depth, EmptyMove(), lowestScore)
            == (EmptyMove(), Pick(ChildScores(r, b, r.legalMoves(b), alpha, depth)[i..], alpha, false, lowestScore))
  {
    var s := ChildScores(r, b, r.legalMoves(b), alpha, depth);
    if i < |moves| {
      var child := r.makeMove(b, moves[i]);
      MaxAbScore(r, child, alpha, beta, depth + 1);
      var score := MaxAb(r, child, alpha, beta, depth + 1).1;
      assert score == s[i];
      assert s[i..][0] == s[i] && s[i..][1..] == s[i + 1..];
      if !Exceeds(score, alpha, false) {
        var beta' := if score < beta then score else beta;
        MinAbLoopScore(r, b, moves, i + 1, alpha, beta', depth, score);
      }
    }
  }

  /** `min_ab` settles on the first child (searched by `max_ab`) scoring below `alpha`, else the last, else 120. */
  lemma MinAbScore<B>(r: Rules<B>, b: B, alpha: int, beta: int, depth: U8)
    ensures depth >= CutoffDepth ==> MinAb(r, b, alpha, beta, depth) == (EmptyMove(), TotalEval(r, b))
    ensures depth < CutoffDepth ==>
              MinAb(r, b, alpha, beta, depth) == (EmptyMove(), Pick(ChildScores(r, b, r.legalMoves(b), alpha, depth), alpha, false, 120))
  {
    if depth < CutoffDepth {
      var s := ChildScores(r, b, r.legalMoves(b), alpha, depth);
      MinAbLoopScore(r, b, r.legalMoves(b), 0, alpha, beta, depth, 120);
      assert s[0..] == s;
    }
  }

  /** The `beta` argument never influences either search. */
  lemma BetaIrrelevant<B>(r: Rules<B>, b: B, alpha: int, beta1: int, beta2: int, depth: U8)
    ensures MaxAb(r, b, alpha, beta1, depth) == MaxAb(r, b, alpha, beta2, depth)
    ensures MinAb(r, b, alpha, beta1, depth) == MinAb(r, b, alpha, beta2, depth)
  {
    MaxAbScore(r, b, alpha, beta1, depth);
    MaxAbScore(r, b, alpha, beta2, depth);
    MinAbScore(r, b, alpha, beta1, depth);
    MinAbScore(r, b, alpha, beta2, depth);
  }

  /** `max_ab` below the cutoff returns the score of the first child scoring above `alpha`. */
  lemma MaxAbFirst<B>(r: Rules<B>, b: B, alpha: int, beta: int, depth: U8, k: nat)
    requires depth < CutoffDepth
    requires var s := ChildScores(r, b, r.legalMoves(b), alpha, depth);
             k < |s| && s[k] > alpha && forall j :: 0 <= j < k ==> s[j] <= alpha
    ensures MaxAb(r, b, alpha, beta, depth).1 == ChildScores(r, b, r.legalMoves(b), alpha, depth)[k]
  {
    MaxAbScore(r, b, alpha, beta, depth);
    PickFirst(ChildScores(r, b, r.legalMoves(b), alpha, depth), alpha, true, -120, k);
  }

  /**
   `max_ab` below the cutoff with no child scoring above `alpha` returns the
   last child's score, or -120 without children.
   */
  lemma MaxAbLast<B>(r: Rules<B>, b: B, alpha: int, beta: int, depth: U8)
    requires depth < CutoffDepth
    requires var s := ChildScores(r, b, r.legalMoves(b), alpha, depth);
             forall j :: 0 <= j < |s| ==> s[j] <= alpha
    ensures var s := ChildScores(r, b, r.legalMoves(b), alpha, depth);
            MaxAb(r, b, alpha, beta, depth).1 == (if s == [] then -120 else s[|s| - 1])
  {
    MaxAbScore(r, b, alpha, beta, depth);
    PickLast(ChildScores(r, b, r.legalMoves(b), alpha, depth), alpha, true, -120);
  }

  /** `min_ab` below the cutoff returns the score of the first child scoring below `alpha`. */
  lemma MinAbFirst<B>(r: Rules<B>, b: B, alpha: int, beta: int, depth: U8, k: nat)
    requires depth < CutoffDepth
    requires var s := ChildScores(r, b, r.legalMoves(b), alpha, depth);
             k < |s| && s[k] < alpha && forall j :: 0 <= j < k ==> s[j] >= alpha
    ensures MinAb(r, b, alpha, beta, depth).1 == ChildScores(r, b, r.legalMoves(b), alpha, depth)[k]
  {
    MinAbScore(r, b, alpha, beta, depth);
    PickFirst(ChildScores(r, b, r.legalMoves(b), alpha, depth), alpha, false, 120, k);
  }

  /**
   `min_ab` below the cutoff with no child scoring below `alpha` returns the
   last child's score, or 120 without children.
   */
  lemma MinAbLast<B>(r: Rules<B>, b: B, alpha: int, beta: int, depth: U8)
    requires depth < CutoffDepth
    requires var s := ChildScores(r, b, r.legalMoves(b), alpha, depth);
             forall j :: 0 <= j < |s| ==> s[j] >= alpha
    ensures var s := ChildScores(r, b, r.legalMoves(b), alpha, depth);
            MinAb(r, b, alpha, beta, depth).1 == (if s == [] then 120 else s[|s| - 1])
  {
    MinAbScore(r, b, alpha, beta, depth);
    PickLast(ChildScores(r, b, r.legalMoves(b), alpha, depth), alpha, false, 120);
  }

  // ---------------------------------------------------------------------
  // The corrected root
  // ---------------------------------------------------------------------

  /** `t` is at least as good as `s` for the side choosing: no lower when maximising, no higher when minimising. */
  predicate NoWorse(t: int, s: int, maximizing: bool) {
    if maximizing then s <= t else s >= t
  }

  /** One turn of the corrected root loop that does not return early. */
  lemma RootSearchStep<B>(r: Rules<B>, b: B, moves: seq<Move>, i: nat, alpha: int, beta: int, depth: U8,
                          maximizing: bool, top: Option<Move>, topScore: int, score: int)
    requires depth < CutoffDepth && i < |moves|
    requires score == MaxAb(r, r.makeMove(b, moves[i]), alpha, beta, depth + 1).1
    requires !Exceeds(score, alpha, maximizing)
    ensures var better := if maximizing then score > topScore else score < topScore;
            var top' := if better || top.None? then Some(moves[i]) else top;
            var topScore' := if better || top.None? then score else topScore;
            var beta' := if maximizing then (if score > beta then score else beta)
                         else (if score < beta then score else beta);
            RootSearch(r, b, moves, i, alpha, beta, depth, maximizing, top, topScore)
              == RootSearch(r, b, moves, i + 1, alpha, beta', depth, maximizing, top', topScore')
  {
  }

  /** The turn of the corrected root loop that returns early reports the move it applied and its score. */
  lemma RootSearchExit<B>(r: Rules<B>, b: B, moves: seq<Move>, i: nat, alpha: int, beta: int, depth: U8,
                          maximizing: bool, top: Option<Move>, topScore: int, score: int)
    requires depth < CutoffDepth && i < |moves|
    requires score == MaxAb(r, r.makeMove(b, moves[i]), alpha, beta, depth + 1).1
    requires Exceeds(score, alpha, maximizing)
    requires top.Some? ==> !Exceeds(topScore, alpha, maximizing)
    ensures RootSearch(r, b, moves, i, alpha, beta, depth, maximizing, top, topScore) == (Some(moves[i]), score)
  {
  }

  /** The score `max_ab` gives the child reached by `m` when called with `beta`. */
  function ChildScoreWith<B>(r: Rules<B>, b: B, m: Move, alpha: int, beta: int, depth: U8): int
    requires depth < CutoffDepth
  {
    MaxAb(r, r.makeMove(b, m), alpha, beta, depth + 1).1
  }

  /**
   The corrected root loop returns a legal move together with that move's
   own subtree score. `scores` are the children's `max_ab` scores, which do
   not depend on `beta`.
   */
  lemma {:induction false} RootSearchMove<B>(r: Rules<B>, b: B, moves: seq<Move>, scores: seq<int>, i: nat,
                                             alpha: int, beta: int, depth: U8, maximizing: bool,
                                             top: Option<Move>, topScore: int)
    requires depth < CutoffDepth && i <= |moves| && |scores| == |moves|
    requires forall j :: 0 <= j < |moves| ==>
               forall bt :: ChildScoreWith(r, b, moves[j], alpha, bt, depth) == scores[j]
    requires top.None? ==> i == 0
    requires top.Some? ==> !Exceeds(topScore, alpha, maximizing) &&
                           exists k :: 0 <= k < i && top.value == moves[k] && topScore == scores[k]
    decreases |moves| - i
    ensures var res := RootSearch(r, b, moves, i, alpha, beta, depth, maximizing, top, topScore);
            res.0.Some? ==> exists k :: 0 <= k < |moves| && res.0.value == moves[k] && res.1 == scores[k]
  {
    if i < |moves| {
      var score := ChildScoreWith(r, b, moves[i], alpha, beta, depth);
      assert score == scores[i];
      if Exceeds(score, alpha, maximizing) {
        RootSearchExit(r, b, moves, i, alpha, beta, depth, maximizing, top, topScore, score);
      } else {
        var better := if maximizing then score > topScore else score < topScore;
        var top' := if better || top.None? then Some(moves[i]) else top;
        var topScore' := if better || top.None? then score else topScore;
        var beta' := if maximizing then (if score > beta then score else beta)
                     else (if score < beta then score else beta);
        RootSearchStep(r, b, moves, i, alpha, beta, depth, maximizing, top, topScore, score);
        RootSearchMove(r, b, moves, scores, i + 1, alpha, beta', depth, maximizing, top', topScore');
      }
    }
  }

  /**
   When no child triggers the early return, the corrected root loop reports
   the best of all children's scores: the highest when maximising, the
   lowest when minimising.
   */
  lemma {:induction false} RootSearchBest<B>(r: Rules<B>, b: B, moves: seq<Move>, scores: seq<int>, i: nat,
                                             alpha: int, beta: int, depth: U8, maximizing: bool,
                                             top: Option<Move>, topScore: int)
    requires depth < CutoffDepth && i <= |moves| && |scores| == |moves|
    requires forall j :: 0 <= j < |moves| ==>
               forall bt :: ChildScoreWith(r, b, moves[j], alpha, bt, depth) == scores[j]
    requires forall j :: i <= j < |moves| ==> !Exceeds(scores[j], alpha, maximizing)
    requires top.None? ==> i == 0
    requires forall j :: 0 <= j < i ==> NoWorse(topScore, scores[j], maximizing)
    decreases |moves| - i
    ensures var res := RootSearch(r, b, moves, i, alpha, beta, depth, maximizing, top, topScore);
            forall j :: 0 <= j < |moves| ==> NoWorse(res.1, scores[j], maximizing)
  {
    if i < |moves| {
      var score := ChildScoreWith(r, b, moves[i], alpha, beta, depth);
      assert score == scores[i];
      var better := if maximizing then score > topScore else score < topScore;
      var top' := if better || top.None? then Some(moves[i]) else top;
      var topScore' := if better || top.None? then score else topScore;
      var beta' := if maximizing then (if score > beta then score else beta)
                   else (if score < beta then score else beta);
      RootSearchStep(r, b, moves, i, alpha, beta, depth, maximizing, top, topScore, score);
      assert forall j :: 0 <= j < i + 1 ==> NoWorse(topScore', scores[j], maximizing);
      RootSearchBest(r, b, moves, scores, i + 1, alpha, beta', depth, maximizing, top', topScore');
    }
  }

  /** The root children's `max_ab` scores, as seen by the corrected root whatever `beta` it passes. */
  lemma RootScores<B>(r: Rules<B>, b: B, alpha: int)
    ensures var moves := r.legalMoves(b);
            var scores := ChildScores(r, b, moves, alpha, 0);
            |scores| == |moves| &&
            forall j :: 0 <= j < |moves| ==> forall bt :: ChildScoreWith(r, b, moves[j], alpha, bt, 0) == scores[j]
  {
    var moves := r.legalMoves(b);
    var scores := ChildScores(r, b, moves, alpha, 0);
    forall j | 0 <= j < |moves|
      ensures forall bt :: ChildScoreWith(r, b, moves[j], alpha, bt, 0) == scores[j]
    {
      forall bt {
        MaxAbScore(r, r.makeMove(b, moves[j]), alpha, bt, 1);
      }
    }
  }

  /** The corrected `best_move` answers with a move the side to move can legally play. */
  lemma BestMoveCorrectedLegal<B>(r: Rules<B>, b: B)
    ensures var m := BestMoveCorrected(r, b);
            m.Some? ==> m.value in r.legalMoves(b)
  {
    var white := r.sideToMove(b) == White;
    var alpha := if white then 125 else -125;
    RootScores(r, b, alpha);
    RootSearchMove(r, b, r.legalMoves(b), ChildScores(r, b, r.legalMoves(b), alpha, 0), 0, alpha, -alpha, 0,
                   white, None, if white then -120 else 120);
  }

  /** The score the corrected root reports is the `max_ab` score of the move it answers with. */
  lemma BestMoveCorrectedScore<B>(r: Rules<B>, b: B)
    ensures var white := r.sideToMove(b) == White;
            var alpha := if white then 125 else -125;
            var res := RootSearch(r, b, r.legalMoves(b), 0, alpha, -alpha, 0, white, None, if white then -120 else 120);
            res.0.Some? ==> res.1 == ScoreMax(r, r.makeMove(b, res.0.value), alpha, 1)
  {
    var white := r.sideToMove(b) == White;
    var alpha := if white then 125 else -125;
    RootScores(r, b, alpha);
    RootSearchMove(r, b, r.legalMoves(b), ChildScores(r, b, r.legalMoves(b), alpha, 0), 0, alpha, -alpha, 0,
                   white, None, if white then -120 else 120);
  }

  /**
   When no root child triggers the early return, the corrected root's score
   is the best child score for the side to move.
   */
  lemma BestMoveCorrectedBest<B>(r: Rules<B>, b: B)
    requires var white := r.sideToMove(b) == White;
             var s := ChildScores(r, b, r.legalMoves(b), if white then 125 else -125, 0);
             forall j :: 0 <= j < |s| ==> !Exceeds(s[j], if white then 125 else -125, white)
    ensures var white := r.sideToMove(b) == White;
            var alpha := if white then 125 else -125;
            var res := RootSearch(r, b, r.legalMoves(b), 0, alpha, -alpha, 0, white, None, if white then -120 else 120);
            var s := ChildScores(r, b, r.legalMoves(b), alpha, 0);
            forall j :: 0 <= j < |s| ==> NoWorse(res.1, s[j], white)
  {
    var white := r.sideToMove(b) == White;
    var alpha := if white then 125 else -125;
    RootScores(r, b, alpha);
    RootSearchBest(r, b, r.legalMoves(b), ChildScores(r, b, r.legalMoves(b), alpha, 0), 0, alpha, -alpha, 0,
                   white, None, if white then -120 else 120);
  }
}
