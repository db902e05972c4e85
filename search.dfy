/** The search procedure: depth-first minimax with alpha-beta pruning and
    depth-adjusted terminal scores.  `MinimaxValue` is plain minimax over the
    cells in ascending order, `AlphaBetaValue` the same search with the
    cutoffs, and the method `Minimax` the in-place search over the caller's
    array, proved equal to `AlphaBetaValue` and to leave the array as it
    found it. */
module Search {
  import opened Board

  /** Stand-ins for -Infinity and +Infinity, the initial running maximum and
      minimum and the bounds of the full window: strictly outside every score. */
  const NegInf: int := -1000
  const PosInf: int := 1000

  function Max(a: int, b: int): int { if a >= b then a else b }
  function Min(a: int, b: int): int { if a <= b then a else b }

  /** The board with `p`'s symbol written into the empty cell `i`. */
  function Place(b: seq<Cell>, i: nat, p: Player): (r: seq<Cell>)
    requires i < |b| && b[i] == Empty
    ensures |r| == |b| && EmptyCount(r) == EmptyCount(b) - 1
  {
    b[i := Mark(p)]
  }

  /** The terminal tests, in the source's order: a win for the searching
      side, a win for its opponent, a full board. */
  function Terminal(b: seq<Cell>, depth: int, ai: Player, pl: Player): Option<int>
    requires |b| == 9
  {
    var winner := CheckWinner(b);
    if winner == Mark(ai) then Some(10 - depth)
    else if winner == Mark(pl) then Some(depth - 10)
    else if IsBoardFull(b) then Some(0)
    else None
  }

  // ---------------------------------------------------------------------
  // Plain minimax, the reference the pruned search is measured against
  // ---------------------------------------------------------------------

  ghost function MinimaxValue(b: seq<Cell>, depth: int, maximizing: bool, ai: Player, pl: Player): int
    requires |b| == 9
    decreases EmptyCount(b), 1
  {
    match Terminal(b, depth, ai, pl)
    case Some(score) => score
    case None =>
      if maximizing then MaxFold(b, 0, depth, ai, pl, NegInf)
      else MinFold(b, 0, depth, ai, pl, PosInf)
  }

  /** The maximum of `acc` and the values of the searching side's moves into
      the empty cells from `i` on. */
  ghost function MaxFold(b: seq<Cell>, i: nat, depth: int, ai: Player, pl: Player, acc: int): int
    requires |b| == 9 && i <= 9
    decreases EmptyCount(b), 0, 9 - i
  {
    if i == 9 then acc
    else if b[i] != Empty then MaxFold(b, i + 1, depth, ai, pl, acc)
    else
      var score := MinimaxValue(Place(b, i, ai), depth + 1, false, ai, pl);
      MaxFold(b, i + 1, depth, ai, pl, Max(score, acc))
  }

  /** The minimum of `acc` and the values of the opponent's moves into the
      empty cells from `i` on. */
  ghost function MinFold(b: seq<Cell>, i: nat, depth: int, ai: Player, pl: Player, acc: int): int
    requires |b| == 9 && i <= 9
    decreases EmptyCount(b), 0, 9 - i
  {
    if i == 9 then acc
    else if b[i] != Empty then MinFold(b, i + 1, depth, ai, pl, acc)
    else
      var score := MinimaxValue(Place(b, i, pl), depth + 1, true, ai, pl);
      MinFold(b, i + 1, depth, ai, pl, Min(score, acc))
  }

  // ---------------------------------------------------------------------
  // Minimax with alpha-beta pruning, as the source computes it
  // ---------------------------------------------------------------------

  ghost function AlphaBetaValue(b: seq<Cell>, depth: int, maximizing: bool, alpha: int, beta: int,
                                ai: Player, pl: Player): int
    requires |b| == 9
    decreases EmptyCount(b), 1
  {
    match Terminal(b, depth, ai, pl)
    case Some(score) => score
    case None =>
      if maximizing then PrunedMax(b, 0, depth, alpha, beta, ai, pl, NegInf)
      else PrunedMin(b, 0, depth, alpha, beta, ai, pl, PosInf)
  }

  /** The maximizing loop from cell `i` on: `best` is the running maximum;
      `alpha` rises with every score and the loop stops once `beta <= alpha`. */
  ghost function PrunedMax(b: seq<Cell>, i: nat, depth: int, alpha: int, beta: int,
                           ai: Player, pl: Player, best: int): int
    requires |b| == 9 && i <= 9
    decreases EmptyCount(b), 0, 9 - i
  {
    if i == 9 then best
    else if b[i] != Empty then PrunedMax(b, i + 1, depth, alpha, beta, ai, pl, best)
    else
      var score := AlphaBetaValue(Place(b, i, ai), depth + 1, false, alpha, beta, ai, pl);
      var best', alpha' := Max(score, best), Max(alpha, score);
      if beta <= alpha' then best'
      else PrunedMax(b, i + 1, depth, alpha', beta, ai, pl, best')
  }

  /** The minimizing loop from cell `i` on: `best` is the running minimum;
      `beta` falls with every score and the loop stops once `beta <= alpha`. */
  ghost function PrunedMin(b: seq<Cell>, i: nat, depth: int, alpha: int, beta: int,
                           ai: Player, pl: Player, best: int): int
    requires |b| == 9 && i <= 9
    decreases EmptyCount(b), 0, 9 - i
  {
    if i == 9 then best
    else if b[i] != Empty then PrunedMin(b, i + 1, depth, alpha, beta, ai, pl, best)
    else
      var score := AlphaBetaValue(Place(b, i, pl), depth + 1, true, alpha, beta, ai, pl);
      var best', beta' := Min(score, best), Min(beta, score);
      if beta' <= alpha then best'
      else PrunedMin(b, i + 1, depth, alpha, beta', ai, pl, best')
  }

  // ---------------------------------------------------------------------
  // The search over the caller's array
  // ---------------------------------------------------------------------

  /** The source's `minimax`: the terminal tests, then the loop of the
      maximizing or of the minimizing ply.  The trial symbols it writes into
      `board` are all cleared again by the time it returns.  What the score
      means is proved of `AlphaBetaValue` below (TerminalScores,
      AlphaBetaBounds, FullWindowAgrees). */
  method Minimax(board: array<Cell>, depth: int, isMaximizing: bool, alpha: int, beta: int,
                 ai: Player, pl: Player) returns (score: int)
    requires board.Length == 9
    modifies board
    decreases EmptyCount(board[..]), 1
    ensures board[..] == old(board[..])
    ensures score == AlphaBetaValue(old(board[..]), depth, isMaximizing, alpha, beta, ai, pl)
  {
    var winner := CheckWinner(board[..]);
    if winner == Mark(ai) { return 10 - depth; }
    if winner == Mark(pl) { return depth - 10; }
    if IsBoardFull(board[..]) { return 0; }
    if isMaximizing {
      score := MaximizingPly(board, depth, alpha, beta, ai, pl);
    } else {
      score := MinimizingPly(board, depth, alpha, beta, ai, pl);
    }
  }

  /** The maximizing loop of `minimax`: each empty cell in ascending order
      gets the searching side's symbol, is searched one ply deeper and is
      cleared again; the loop stops early once `beta <= alpha`. */
  method MaximizingPly(board: array<Cell>, depth: int, alpha: int, beta: int, ai: Player, pl: Player)
    returns (maxScore: int)
    requires board.Length == 9
    modifies board
    decreases EmptyCount(board[..]), 0
    ensures board[..] == old(board[..])
    ensures maxScore == PrunedMax(old(board[..]), 0, depth, alpha, beta, ai, pl, NegInf)
  {
    ghost var b := board[..];
    var alpha' := alpha;
    maxScore := NegInf;
    for i := 0 to 9
      invariant board[..] == b
      invariant PrunedMax(b, i, depth, alpha', beta, ai, pl, maxScore)
                == PrunedMax(b, 0, depth, alpha, beta, ai, pl, NegInf)
    {
      if board[i] == Empty {
        board[i] := Mark(ai);
        assert board[..] == Place(b, i, ai);
        var score := Minimax(board, depth + 1, false, alpha', beta, ai, pl);
        board[i] := Empty;
        assert board[..] == b;
        maxScore := Max(score, maxScore);
        alpha' := Max(alpha', score);
        if beta <= alpha' { break; }
      }
    }
  }

  /** The minimizing loop of `minimax`, with the opponent's symbol. */
  method MinimizingPly(board: array<Cell>, depth: int, alpha: int, beta: int, ai: Player, pl: Player)
    returns (minScore: int)
    requires board.Length == 9
    modifies board
    decreases EmptyCount(board[..]), 0
    ensures board[..] == old(board[..])
    ensures minScore == PrunedMin(old(board[..]), 0, depth, alpha, beta, ai, pl, PosInf)
  {
    ghost var b := board[..];
    var beta' := beta;
    minScore := PosInf;
    for i := 0 to 9
      invariant board[..] == b
      invariant PrunedMin(b, i, depth, alpha, beta', ai, pl, minScore)
                == PrunedMin(b, 0, depth, alpha, beta, ai, pl, PosInf)
    {
      if board[i] == Empty {
        board[i] := Mark(pl);
        assert board[..] == Place(b, i, pl);
        var score := Minimax(board, depth + 1, true, alpha, beta', ai, pl);
        board[i] := Empty;
        assert board[..] == b;
        minScore := Min(score, minScore);
        beta' := Min(beta', score);
        if beta' <= alpha { break; }
      }
    }
  }

  // ---------------------------------------------------------------------
  // Terminal scores and score bounds
  // ---------------------------------------------------------------------

  /** The terminal tests come first and in order: a win for the searching
      side scores `10 - depth`, a win for its opponent `depth - 10`, and a
      full board without a winner `0`, whatever the window and the ply. */
  lemma TerminalScores(b: seq<Cell>, depth: int, maximizing: bool, alpha: int, beta: int, ai: Player, pl: Player)
    requires |b| == 9
    ensures CheckWinner(b) == Mark(ai) ==>
              AlphaBetaValue(b, depth, maximizing, alpha, beta, ai, pl) == 10 - depth
    ensures CheckWinner(b) != Mark(ai) && CheckWinner(b) == Mark(pl) ==>
              AlphaBetaValue(b, depth, maximizing, alpha, beta, ai, pl) == depth - 10
    ensures CheckWinner(b) != Mark(ai) && CheckWinner(b) != Mark(pl) && IsBoardFull(b) ==>
              AlphaBetaValue(b, depth, maximizing, alpha, beta, ai, pl) == 0
  {
  }

  /** `score` lies in [depth - 10, 10 - depth]. */
  predicate Within(score: int, depth: int)
  {
    depth - 10 <= score <= 10 - depth
  }

  /** With `depth + (empty cells) <= 10` every score of the pruned search
      lies in [depth - 10, 10 - depth], so it is never one of the infinite
      initialisers. */
  lemma {:induction false} AlphaBetaBounds(b: seq<Cell>, depth: int, maximizing: bool, alpha: int, beta: int,
                                           ai: Player, pl: Player)
    requires |b| == 9 && 0 <= depth && depth + EmptyCount(b) <= 10
    ensures Within(AlphaBetaValue(b, depth, maximizing, alpha, beta, ai, pl), depth)
    decreases EmptyCount(b), 1
  {
    if Terminal(b, depth, ai, pl).None? {
      if maximizing {
        PrunedMaxBounds(b, 0, depth, alpha, beta, ai, pl, NegInf);
      } else {
        PrunedMinBounds(b, 0, depth, alpha, beta, ai, pl, PosInf);
      }
    }
  }

  /** Some cell from `i` on is empty. */
  predicate EmptyFrom(b: seq<Cell>, i: nat)
    requires |b| == 9
  {
    exists j :: i <= j < 9 && b[j] == Empty
  }

  lemma {:induction false} PrunedMaxBounds(b: seq<Cell>, i: nat, depth: int, alpha: int, beta: int,
                                           ai: Player, pl: Player, best: int)
    requires |b| == 9 && i <= 9 && 0 <= depth && depth + EmptyCount(b) <= 10
    requires Within(best, depth + 1) || (best == NegInf && EmptyFrom(b, i))
    ensures Within(PrunedMax(b, i, depth, alpha, beta, ai, pl, best), depth + 1)
    decreases EmptyCount(b), 0, 9 - i
  {
    if i < 9 {
      if b[i] == Empty {
        var child := Place(b, i, ai);
        AlphaBetaBounds(child, depth + 1, false, alpha, beta, ai, pl);
        var score := AlphaBetaValue(child, depth + 1, false, alpha, beta, ai, pl);
        assert Within(Max(score, best), depth + 1);
        if Max(alpha, score) < beta {
          PrunedMaxBounds(b, i + 1, depth, Max(alpha, score), beta, ai, pl, Max(score, best));
        }
      } else {
        assert EmptyFrom(b, i) ==> EmptyFrom(b, i + 1);
        assert PrunedMax(b, i, depth, alpha, beta, ai, pl, best) == PrunedMax(b, i + 1, depth, alpha, beta, ai, pl, best);
        PrunedMaxBounds(b, i + 1, depth, alpha, beta, ai, pl, best);
      }
    }
  }

  lemma {:induction false} PrunedMinBounds(b: seq<Cell>, i: nat, depth: int, alpha: int, beta: int,
                                           ai: Player, pl: Player, best: int)
    requires |b| == 9 && i <= 9 && 0 <= depth && depth + EmptyCount(b) <= 10
    requires Within(best, depth + 1) || (best == PosInf && EmptyFrom(b, i))
    ensures Within(PrunedMin(b, i, depth, alpha, beta, ai, pl, best), depth + 1)
    decreases EmptyCount(b), 0, 9 - i
  {
    if i < 9 {
      if b[i] == Empty {
        var child := Place(b, i, pl);
        AlphaBetaBounds(child, depth + 1, true, alpha, beta, ai, pl);
        var score := AlphaBetaValue(child, depth + 1, true, alpha, beta, ai, pl);
        assert Within(Min(score, best), depth + 1);
        if alpha < Min(beta, score) {
          PrunedMinBounds(b, i + 1, depth, alpha, Min(beta, score), ai, pl, Min(score, best));
        }
      } else {
        assert EmptyFrom(b, i) ==> EmptyFrom(b, i + 1);
        assert PrunedMin(b, i, depth, alpha, beta, ai, pl, best) == PrunedMin(b, i + 1, depth, alpha, beta, ai, pl, best);
        PrunedMinBounds(b, i + 1, depth, alpha, beta, ai, pl, best);
      }
    }
  }

  /** The extreme scores of a ply are reached exactly by terminal wins: the
      search scores `10 - depth` iff the searching side has already won and
      `depth - 10` iff its opponent has, so a faster win outscores a slower
      one and a slower loss outscores a faster one. */
  lemma ExtremeScores(b: seq<Cell>, depth: int, maximizing: bool, alpha: int, beta: int, ai: Player, pl: Player)
    requires |b| == 9 && 0 <= depth && depth + EmptyCount(b) <= 9
    ensures AlphaBetaValue(b, depth, maximizing, alpha, beta, ai, pl) == 10 - depth
            <==> CheckWinner(b) == Mark(ai)
    ensures AlphaBetaValue(b, depth, maximizing, alpha, beta, ai, pl) == depth - 10
            <==> CheckWinner(b) != Mark(ai) && CheckWinner(b) == Mark(pl)
  {
    if Terminal(b, depth, ai, pl).None? {
      if maximizing {
        PrunedMaxBounds(b, 0, depth, alpha, beta, ai, pl, NegInf);
      } else {
        PrunedMinBounds(b, 0, depth, alpha, beta, ai, pl, PosInf);
      }
    }
  }

  // ---------------------------------------------------------------------
  // Pruning only skips work
  // ---------------------------------------------------------------------

  /** The fail-soft alpha-beta guarantee relating a pruned result `r` to the
      true minimax value `v` for the window (alpha, beta). */
  predicate FailSoft(r: int, v: int, alpha: int, beta: int)
  {
    (v <= alpha ==> v <= r <= alpha) &&
    (alpha < v < beta ==> r == v) &&
    (beta <= v ==> beta <= r <= v)
  }

  lemma {:induction false} MaxFoldAtLeast(b: seq<Cell>, i: nat, depth: int, ai: Player, pl: Player, acc: int)
    requires |b| == 9 && i <= 9
    ensures MaxFold(b, i, depth, ai, pl, acc) >= acc
    decreases 9 - i
  {
    if i < 9 {
      if b[i] != Empty {
        MaxFoldAtLeast(b, i + 1, depth, ai, pl, acc);
      } else {
        var score := MinimaxValue(Place(b, i, ai), depth + 1, false, ai, pl);
        MaxFoldAtLeast(b, i + 1, depth, ai, pl, Max(score, acc));
      }
    }
  }

  lemma {:induction false} MinFoldAtMost(b: seq<Cell>, i: nat, depth: int, ai: Player, pl: Player, acc: int)
    requires |b| == 9 && i <= 9
    ensures MinFold(b, i, depth, ai, pl, acc) <= acc
    decreases 9 - i
  {
    if i < 9 {
      if b[i] != Empty {
        MinFoldAtMost(b, i + 1, depth, ai, pl, acc);
      } else {
        var score := MinimaxValue(Place(b, i, pl), depth + 1, true, ai, pl);
        MinFoldAtMost(b, i + 1, depth, ai, pl, Min(score, acc));
      }
    }
  }

  /** For every window with alpha < beta the pruned search is fail-soft with
      respect to plain minimax (Knuth and Moore's theorem). */
  lemma {:induction false} AlphaBetaFailSoft(b: seq<Cell>, depth: int, maximizing: bool, alpha: int, beta: int,
                                             ai: Player, pl: Player)
    requires |b| == 9
    requires NegInf <= alpha < beta <= PosInf
    ensures FailSoft(AlphaBetaValue(b, depth, maximizing, alpha, beta, ai, pl),
                     MinimaxValue(b, depth, maximizing, ai, pl), alpha, beta)
    decreases EmptyCount(b), 1
  {
    if Terminal(b, depth, ai, pl).None? {
      if maximizing {
        MaxLoopFailSoft(b, 0, depth, alpha, alpha, beta, NegInf, NegInf, ai, pl);
      } else {
        MinLoopFailSoft(b, 0, depth, beta, alpha, beta, PosInf, PosInf, ai, pl);
      }
    }
  }

  /** One step of the maximizing loop that ends in a cutoff: the child's
      score `s` (true value `t`) reached beta, so the ply fails high. */
  lemma MaxStepCutoff(s: int, t: int, a0: int, alpha: int, beta: int, best: int, acc: int, v: int)
    requires FailSoft(s, t, alpha, beta) && alpha < beta && alpha == Max(a0, best)
    requires beta <= Max(alpha, s) && v >= Max(t, acc)
    ensures FailSoft(Max(s, best), v, a0, beta)
  {
  }

  /** One step of the maximizing loop without a cutoff keeps its invariant. */
  lemma MaxStepContinue(s: int, t: int, a0: int, alpha: int, beta: int, best: int, acc: int)
    requires FailSoft(s, t, alpha, beta) && alpha == Max(a0, best)
    requires acc <= best && (best > a0 ==> acc == best)
    requires Max(alpha, s) < beta
    ensures Max(t, acc) <= Max(s, best) && (Max(s, best) > a0 ==> Max(t, acc) == Max(s, best))
  {
  }

  /** One step of the minimizing loop that ends in a cutoff: the child's
      score `s` (true value `t`) fell to alpha, so the ply fails low. */
  lemma MinStepCutoff(s: int, t: int, b0: int, alpha: int, beta: int, best: int, acc: int, v: int)
    requires FailSoft(s, t, alpha, beta) && alpha < beta && beta == Min(b0, best)
    requires Min(beta, s) <= alpha && v <= Min(t, acc)
    ensures FailSoft(Min(s, best), v, alpha, b0)
  {
  }

  /** One step of the minimizing loop without a cutoff keeps its invariant. */
  lemma MinStepContinue(s: int, t: int, b0: int, alpha: int, beta: int, best: int, acc: int)
    requires FailSoft(s, t, alpha, beta) && beta == Min(b0, best)
    requires acc >= best && (best < b0 ==> acc == best)
    requires alpha < Min(beta, s)
    ensures Min(t, acc) >= Min(s, best) && (Min(s, best) < b0 ==> Min(t, acc) == Min(s, best))
  {
  }

  /** The maximizing loop: `a0` is the alpha the ply was called with, `best`
      the pruned running maximum and `acc` the true one. */
  lemma {:induction false} MaxLoopFailSoft(b: seq<Cell>, i: nat, depth: int, a0: int, alpha: int, beta: int,
                                           best: int, acc: int, ai: Player, pl: Player)
    requires |b| == 9 && i <= 9
    requires NegInf <= a0 && alpha < beta <= PosInf
    requires alpha == Max(a0, best)
    requires acc <= best && (best > a0 ==> acc == best)
    ensures FailSoft(PrunedMax(b, i, depth, alpha, beta, ai, pl, best),
                     MaxFold(b, i, depth, ai, pl, acc), a0, beta)
    decreases EmptyCount(b), 0, 9 - i
  {
    if i < 9 {
      if b[i] == Empty {
        var child := Place(b, i, ai);
        AlphaBetaFailSoft(child, depth + 1, false, alpha, beta, ai, pl);
        var s := AlphaBetaValue(child, depth + 1, false, alpha, beta, ai, pl);
        var t := MinimaxValue(child, depth + 1, false, ai, pl);
        var v := MaxFold(b, i + 1, depth, ai, pl, Max(t, acc));
        assert MaxFold(b, i, depth, ai, pl, acc) == v;
        if beta <= Max(alpha, s) {
          MaxFoldAtLeast(b, i + 1, depth, ai, pl, Max(t, acc));
          MaxStepCutoff(s, t, a0, alpha, beta, best, acc, v);
        } else {
          MaxStepContinue(s, t, a0, alpha, beta, best, acc);
          MaxLoopFailSoft(b, i + 1, depth, a0, Max(alpha, s), beta, Max(s, best), Max(t, acc), ai, pl);
        }
      } else {
        MaxLoopFailSoft(b, i + 1, depth, a0, alpha, beta, best, acc, ai, pl);
      }
    }
  }

  /** The minimizing loop: `b0` is the beta the ply was called with, `best`
      the pruned running minimum and `acc` the true one. */
  lemma {:induction false} MinLoopFailSoft(b: seq<Cell>, i: nat, depth: int, b0: int, alpha: int, beta: int,
                                           best: int, acc: int, ai: Player, pl: Player)
    requires |b| == 9 && i <= 9
    requires NegInf <= alpha < beta && b0 <= PosInf
    requires beta == Min(b0, best)
    requires acc >= best && (best < b0 ==> acc == best)
    ensures FailSoft(PrunedMin(b, i, depth, alpha, beta, ai, pl, best),
                     MinFold(b, i, depth, ai, pl, acc), alpha, b0)
    decreases EmptyCount(b), 0, 9 - i
  {
    if i < 9 {
      if b[i] == Empty {
        var child := Place(b, i, pl);
        AlphaBetaFailSoft(child, depth + 1, true, alpha, beta, ai, pl);
        var s := AlphaBetaValue(child, depth + 1, true, alpha, beta, ai, pl);
        var t := MinimaxValue(child, depth + 1, true, ai, pl);
        var v := MinFold(b, i + 1, depth, ai, pl, Min(t, acc));
        assert MinFold(b, i, depth, ai, pl, acc) == v;
        if Min(beta, s) <= alpha {
          MinFoldAtMost(b, i + 1, depth, ai, pl, Min(t, acc));
          MinStepCutoff(s, t, b0, alpha, beta, best, acc, v);
        } else {
          MinStepContinue(s, t, b0, alpha, beta, best, acc);
          MinLoopFailSoft(b, i + 1, depth, b0, alpha, Min(beta, s), Min(s, best), Min(t, acc), ai, pl);
        }
      } else {
        MinLoopFailSoft(b, i + 1, depth, b0, alpha, beta, best, acc, ai, pl);
      }
    }
  }

  /** Called with the full window (-Infinity, +Infinity), as the move policy
      calls it, the pruned search returns exactly the plain minimax value. */
  lemma FullWindowAgrees(b: seq<Cell>, depth: int, maximizing: bool, ai: Player, pl: Player)
    requires |b| == 9 && 0 <= depth && depth + EmptyCount(b) <= 10
    ensures AlphaBetaValue(b, depth, maximizing, NegInf, PosInf, ai, pl)
            == MinimaxValue(b, depth, maximizing, ai, pl)
  {
    AlphaBetaBounds(b, depth, maximizing, NegInf, PosInf, ai, pl);
    AlphaBetaFailSoft(b, depth, maximizing, NegInf, PosInf, ai, pl);
  }

  /** Plain minimax obeys the same bounds as the pruned search. */
  lemma MinimaxBounds(b: seq<Cell>, depth: int, maximizing: bool, ai: Player, pl: Player)
    requires |b| == 9 && 0 <= depth && depth + EmptyCount(b) <= 10
    ensures Within(MinimaxValue(b, depth, maximizing, ai, pl), depth)
  {
    AlphaBetaBounds(b, depth, maximizing, NegInf, PosInf, ai, pl);
    FullWindowAgrees(b, depth, maximizing, ai, pl);
  }
}
