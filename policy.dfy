/** The move policy: the source's `findBestMove`.  It returns -1 on a full
    board, otherwise either a random free cell (Easy and Medium, when the
    random draw says so) or the free cell whose search score is highest,
    the first one in ascending order among equals. */
module Policy {
  import opened Board
  import opened Search

  /** The score the search gives the free cell `m`: the searching side's
      symbol is placed there and the opponent is to move, with the full
      window, at depth 0. */
  ghost function MoveScore(b: seq<Cell>, m: nat, ai: Player, pl: Player): int
    requires |b| == 9 && m < 9 && b[m] == Empty
  {
    AlphaBetaValue(Place(b, m, ai), 0, false, NegInf, PosInf, ai, pl)
  }

  /** Every entry of `moves` is a free cell of `b`. */
  predicate AllFree(b: seq<Cell>, moves: seq<nat>)
    requires |b| == 9
  {
    forall k :: 0 <= k < |moves| ==> moves[k] < 9 && b[moves[k]] == Empty
  }

  /** The running best of the scan: `bestScore` and `bestMove`. */
  datatype Choice = Choice(score: int, move: int)

  /** The scan over `moves` from position `k` on, in order, replacing the
      running best only on a strictly greater score. */
  ghost function ScanBest(b: seq<Cell>, moves: seq<nat>, k: nat, ai: Player, pl: Player, best: Choice): Choice
    requires |b| == 9 && AllFree(b, moves) && k <= |moves|
    decreases |moves| - k
  {
    if k == |moves| then best
    else
      var score := MoveScore(b, moves[k], ai, pl);
      ScanBest(b, moves, k + 1, ai, pl, if score > best.score then Choice(score, moves[k]) else best)
  }

  /** The move the search branch returns: the scan over the available
      moves, starting from -Infinity and the first available move. */
  ghost function SearchMove(b: seq<Cell>, ai: Player, pl: Player): int
    requires |b| == 9 && !IsBoardFull(b)
  {
    var moves := GetAvailableMoves(b);
    ScanBest(b, moves, 0, ai, pl, Choice(NegInf, moves[0])).move
  }

  /** Whether the random branch is taken, given the uniform draw: with
      probability 0.7 on Easy (0), 0.4 on Medium (1), never otherwise. */
  function TakeRandom(difficulty: int, gateDraw: real): bool
  {
    (difficulty == 0 && gateDraw < 0.7) || (difficulty == 1 && gateDraw < 0.4)
  }

  /** `Math.floor(draw * n)` for a uniform draw in [0, 1): a position in a
      list of length `n`. */
  function RandomIndex(n: nat, draw: real): (k: nat)
    requires 0 < n && 0.0 <= draw < 1.0
    ensures k < n
  {
    assert 0.0 <= draw * (n as real) < n as real;
    (draw * (n as real)).Floor
  }

  /** What `findBestMove` returns for board `b`, given its random draws. */
  ghost function ChooseMove(b: seq<Cell>, ai: Player, pl: Player, difficulty: int, gateDraw: real, pickDraw: real): int
    requires |b| == 9 && 0.0 <= pickDraw < 1.0
  {
    var moves := GetAvailableMoves(b);
    if |moves| == 0 then -1
    else if TakeRandom(difficulty, gateDraw) then moves[RandomIndex(|moves|, pickDraw)]
    else SearchMove(b, ai, pl)
  }

  // ---------------------------------------------------------------------
  // The policy over the caller's array
  // ---------------------------------------------------------------------

  /** The source's `findBestMove`.  `Math.random` is replaced by its two
      draws: `gateDraw` decides the random branch, `pickDraw` picks the
      random move.  Trial placements are cleared after each search, so the
      board is handed back as it came. */
  method FindBestMove(board: array<Cell>, ai: Player, pl: Player, difficulty: int, gateDraw: real, pickDraw: real)
    returns (move: int)
    requires board.Length == 9 && 0.0 <= pickDraw < 1.0
    modifies board
    ensures board[..] == old(board[..])
    ensures move == ChooseMove(old(board[..]), ai, pl, difficulty, gateDraw, pickDraw)
    ensures move == -1 <==> IsBoardFull(old(board[..]))
    ensures move != -1 ==> 0 <= move < 9 && old(board[move]) == Empty
  {
    ChooseMoveLegal(old(board[..]), ai, pl, difficulty, gateDraw, pickDraw);
    var availableMoves := GetAvailableMoves(board[..]);
    if |availableMoves| == 0 {
      move := -1;
    } else if difficulty == 0 && gateDraw < 0.7 {
      move := availableMoves[RandomIndex(|availableMoves|, pickDraw)];
    } else if difficulty == 1 && gateDraw < 0.4 {
      move := availableMoves[RandomIndex(|availableMoves|, pickDraw)];
    } else {
      move := SearchBestMove(board, ai, pl);
    }
  }

  /** One trial of the search branch: `ai` is placed at the free cell `m`,
      the position is searched with the opponent to move and the cell is
      cleared again. */
  method ScoreMove(board: array<Cell>, m: nat, ai: Player, pl: Player) returns (score: int)
    requires board.Length == 9 && m < 9 && board[m] == Empty
    modifies board
    ensures board[..] == old(board[..])
    ensures score == MoveScore(old(board[..]), m, ai, pl)
  {
    ghost var b := board[..];
    board[m] := Mark(ai);
    assert board[..] == Place(b, m, ai);
    score := Minimax(board, 0, false, NegInf, PosInf, ai, pl);
    board[m] := Empty;
    assert board[..] == b;
  }

  /** The search branch of `findBestMove`: every available move is tried
      in ascending order, scored by the search with the opponent to move,
      and kept when it beats the best score so far. */
  method SearchBestMove(board: array<Cell>, ai: Player, pl: Player) returns (bestMove: int)
    requires board.Length == 9 && !IsBoardFull(board[..])
    modifies board
    ensures board[..] == old(board[..])
    ensures bestMove == SearchMove(old(board[..]), ai, pl)
  {
    ghost var b := board[..];
    var availableMoves := GetAvailableMoves(board[..]);
    var bestScore := NegInf;
    bestMove := availableMoves[0];
    for k := 0 to |availableMoves|
      invariant board[..] == b
      invariant ScanBest(b, availableMoves, k, ai, pl, Choice(bestScore, bestMove))
                == ScanBest(b, availableMoves, 0, ai, pl, Choice(NegInf, availableMoves[0]))
    {
      var m := availableMoves[k];
      var score := ScoreMove(board, m, ai, pl);
      if score > bestScore {
        bestScore := score;
        bestMove := m;
      }
    }
  }

  // ---------------------------------------------------------------------
  // What the policy promises
  // ---------------------------------------------------------------------

  /** The search score of a move is the plain minimax value of the position
      it leads to, lies in [-10, 10], and is 10 exactly when the move wins
      on the spot. */
  lemma MoveScoreMeaning(b: seq<Cell>, m: nat, ai: Player, pl: Player)
    requires |b| == 9 && m < 9 && b[m] == Empty
    ensures MoveScore(b, m, ai, pl) == MinimaxValue(Place(b, m, ai), 0, false, ai, pl)
    ensures -10 <= MoveScore(b, m, ai, pl) <= 10
    ensures MoveScore(b, m, ai, pl) == 10 <==> CheckWinner(Place(b, m, ai)) == Mark(ai)
  {
    var c := Place(b, m, ai);
    EmptyCountAtMost(b);
    FullWindowAgrees(c, 0, false, ai, pl);
    AlphaBetaBounds(c, 0, false, NegInf, PosInf, ai, pl);
    ExtremeScores(c, 0, false, NegInf, PosInf, ai, pl);
  }

  /** The scan from position `k` ends on a score no lower than where it
      started and no lower than that of any move of the rest of the list. */
  lemma {:induction false} ScanBestIsUpperBound(b: seq<Cell>, moves: seq<nat>, k: nat, ai: Player, pl: Player, best: Choice)
    requires |b| == 9 && AllFree(b, moves) && k <= |moves|
    decreases |moves| - k
    ensures ScanBest(b, moves, k, ai, pl, best).score >= best.score
    ensures forall j :: k <= j < |moves| ==> MoveScore(b, moves[j], ai, pl) <= ScanBest(b, moves, k, ai, pl, best).score
  {
    if k < |moves| {
      var score := MoveScore(b, moves[k], ai, pl);
      var next := if score > best.score then Choice(score, moves[k]) else best;
      ScanBestIsUpperBound(b, moves, k + 1, ai, pl, next);
      var r := ScanBest(b, moves, k, ai, pl, best);
      assert r == ScanBest(b, moves, k + 1, ai, pl, next);
      assert score <= next.score && best.score <= next.score;
      forall j | k <= j < |moves|
        ensures MoveScore(b, moves[j], ai, pl) <= r.score
      {
        if j == k {
          assert MoveScore(b, moves[j], ai, pl) == score;
        }
      }
    }
  }

  /** The scan from position `k` over an ascending list ends either where it
      started, or on a move of the rest of the list whose score beats the
      start and is strictly larger than that of every move before it. */
  lemma {:induction false} ScanBestFindsFirstMaximum(b: seq<Cell>, moves: seq<nat>, k: nat, ai: Player, pl: Player, best: Choice)
    requires |b| == 9 && AllFree(b, moves) && k <= |moves|
    requires forall i, j :: 0 <= i < j < |moves| ==> moves[i] < moves[j]
    decreases |moves| - k
    ensures var r := ScanBest(b, moves, k, ai, pl, best);
      r == best ||
      ((exists j :: k <= j < |moves| && r.move == moves[j]) &&
       r.score == MoveScore(b, r.move, ai, pl) && r.score > best.score &&
       forall j :: k <= j < |moves| && moves[j] < r.move ==> MoveScore(b, moves[j], ai, pl) < r.score)
  {
    if k < |moves| {
      var score := MoveScore(b, moves[k], ai, pl);
      var next := if score > best.score then Choice(score, moves[k]) else best;
      ScanBestFindsFirstMaximum(b, moves, k + 1, ai, pl, next);
      var r := ScanBest(b, moves, k, ai, pl, best);
      assert r == ScanBest(b, moves, k + 1, ai, pl, next);
      if r == next && next != best {
        assert r.move == moves[k];
      } else if r != next {
        assert score <= next.score;
      }
    }
  }

  /** With the random branch not taken, the returned move is a free cell
      whose score is maximal among all free cells, and no free cell before
      it scores as much: ties go to the lowest index. */
  lemma SearchMoveIsFirstBest(b: seq<Cell>, ai: Player, pl: Player)
    requires |b| == 9 && !IsBoardFull(b)
    ensures var r := SearchMove(b, ai, pl);
      0 <= r < 9 && b[r] == Empty &&
      (forall m :: 0 <= m < 9 && b[m] == Empty ==> MoveScore(b, m, ai, pl) <= MoveScore(b, r, ai, pl)) &&
      (forall m :: 0 <= m < r && b[m] == Empty ==> MoveScore(b, m, ai, pl) < MoveScore(b, r, ai, pl))
  {
    var moves := GetAvailableMoves(b);
    var start := Choice(NegInf, moves[0]);
    ScanBestIsUpperBound(b, moves, 0, ai, pl, start);
    ScanBestFindsFirstMaximum(b, moves, 0, ai, pl, start);
    MoveScoreMeaning(b, moves[0], ai, pl);
    var r := ScanBest(b, moves, 0, ai, pl, start);
    assert r != start;
    forall m | 0 <= m < 9 && b[m] == Empty
      ensures MoveScore(b, m, ai, pl) <= r.score
      ensures m < r.move ==> MoveScore(b, m, ai, pl) < r.score
    {
      var k :| 0 <= k < |moves| && moves[k] == m;
    }
  }

  /** `findBestMove` returns -1 exactly on a full board, and otherwise a
      free cell, on the random branch as well as on the search branch. */
  lemma ChooseMoveLegal(b: seq<Cell>, ai: Player, pl: Player, difficulty: int, gateDraw: real, pickDraw: real)
    requires |b| == 9 && 0.0 <= pickDraw < 1.0
    ensures var r := ChooseMove(b, ai, pl, difficulty, gateDraw, pickDraw);
      (r == -1 <==> IsBoardFull(b)) &&
      (r != -1 ==> 0 <= r < 9 && b[r] == Empty)
  {
    if !IsBoardFull(b) {
      SearchMoveIsFirstBest(b, ai, pl);
    }
  }

  /** On the random branch the move is an entry of the available moves. */
  lemma RandomMoveIsAvailable(b: seq<Cell>, ai: Player, pl: Player, difficulty: int, gateDraw: real, pickDraw: real)
    requires |b| == 9 && 0.0 <= pickDraw < 1.0
    requires !IsBoardFull(b) && TakeRandom(difficulty, gateDraw)
    ensures ChooseMove(b, ai, pl, difficulty, gateDraw, pickDraw) in GetAvailableMoves(b)
  {
  }

  /** On Unbeatable (or whenever the random draw does not select the random
      branch) the move does not depend on the draws: it is the first free
      cell of best score. */
  lemma DeterministicWhenNotRandom(b: seq<Cell>, ai: Player, pl: Player, difficulty: int,
                                   gateDraw: real, pickDraw: real, gateDraw': real, pickDraw': real)
    requires |b| == 9 && !IsBoardFull(b)
    requires 0.0 <= pickDraw < 1.0 && 0.0 <= pickDraw' < 1.0
    requires !TakeRandom(difficulty, gateDraw) && !TakeRandom(difficulty, gateDraw')
    ensures ChooseMove(b, ai, pl, difficulty, gateDraw, pickDraw)
            == ChooseMove(b, ai, pl, difficulty, gateDraw', pickDraw')
            == SearchMove(b, ai, pl)
  {
  }

  /** The draw (n - 1) / n picks position n - 1. */
  lemma LastDrawPicksLast(n: nat)
    requires 0 < n
    ensures 0.0 <= (n - 1) as real / n as real < 1.0
    ensures RandomIndex(n, (n - 1) as real / n as real) == n - 1
  {
    var x := (n - 1) as real;
    var y := n as real;
    assert x / y * y == x;
  }

  /** On the random branch the pick is not constant: with two or more free
      cells, the lowest draw picks the first available move and the draw
      (n - 1) / n the last one, and the two differ. */
  lemma RandomBranchVaries(b: seq<Cell>, ai: Player, pl: Player, difficulty: int, gateDraw: real)
    requires |b| == 9 && EmptyCount(b) >= 2 && TakeRandom(difficulty, gateDraw)
    ensures var n := EmptyCount(b);
      ChooseMove(b, ai, pl, difficulty, gateDraw, 0.0)
      != ChooseMove(b, ai, pl, difficulty, gateDraw, (n - 1) as real / n as real)
  {
    var moves := GetAvailableMoves(b);
    var n := |moves|;
    LastDrawPicksLast(n);
    assert RandomIndex(n, 0.0) == 0;
    assert moves[0] < moves[n - 1];
  }

  /** When some free cell wins on the spot, the search takes the first such
      cell in ascending order. */
  lemma SearchTakesFirstWin(b: seq<Cell>, ai: Player, pl: Player, w: nat)
    requires |b| == 9 && w < 9 && b[w] == Empty
    requires CheckWinner(Place(b, w, ai)) == Mark(ai)
    requires forall m :: 0 <= m < w && b[m] == Empty ==> CheckWinner(Place(b, m, ai)) != Mark(ai)
    ensures !IsBoardFull(b) && SearchMove(b, ai, pl) == w
  {
    SearchMoveIsFirstBest(b, ai, pl);
    var r := SearchMove(b, ai, pl);
    MoveScoreMeaning(b, w, ai, pl);
    MoveScoreMeaning(b, r, ai, pl);
  }

  // ---------------------------------------------------------------------
  // Two positions worked through
  // ---------------------------------------------------------------------

  /** X X . / O O . / . . . with X to move on Unbeatable: X completes the
      top row at cell 2. */
  lemma TakesImmediateWin(b: seq<Cell>, gateDraw: real, pickDraw: real)
    requires |b| == 9 && b[0] == Mark(X) && b[1] == Mark(X) && b[2] == Empty
    requires b[3] == Mark(O) && b[4] == Mark(O) && b[5] == Empty
    requires b[6] == Empty && b[7] == Empty && b[8] == Empty
    requires 0.0 <= pickDraw < 1.0
    ensures ChooseMove(b, X, O, 2, gateDraw, pickDraw) == 2
  {
    assert Completed(Place(b, 2, X), Lines[0]);
    SearchTakesFirstWin(b, X, O, 2);
  }

  /** O O X / X X . / . . . has no completed line. */
  lemma NoLineAfterBlock(c: seq<Cell>)
    requires |c| == 9 && c[0] == Mark(O) && c[1] == Mark(O) && c[2] == Mark(X)
    requires c[3] == Mark(X) && c[4] == Mark(X) && c[5] == Empty
    requires c[6] == Empty && c[7] == Empty && c[8] == Empty
    ensures CheckWinner(c) == Empty
  {
    assert Lines[0] == (0, 1, 2) && Lines[1] == (3, 4, 5) && Lines[2] == (6, 7, 8);
    assert Lines[3] == (0, 3, 6) && Lines[4] == (1, 4, 7) && Lines[5] == (2, 5, 8);
    assert Lines[6] == (0, 4, 8) && Lines[7] == (2, 4, 6);
  }

  /** O O . / X X X / . . . is won by X: the top row is not completed,
      the middle row is. */
  lemma MiddleRowWins(c: seq<Cell>)
    requires |c| == 9 && c[0] == Mark(O) && c[1] == Mark(O) && c[2] == Empty
    requires c[3] == Mark(X) && c[4] == Mark(X) && c[5] == Mark(X)
    ensures CheckWinner(c) == Mark(X)
  {
    assert Lines[0] == (0, 1, 2) && Lines[1] == (3, 4, 5);
    assert WinnerFrom(c, 1) == Mark(X);
  }

  /** O O . / X X . / . . . with X to move on Unbeatable: X wins at once at
      cell 5 rather than blocking O at cell 2, since cell 2 completes no
      line for X. */
  lemma PrefersWinOverBlock(b: seq<Cell>, gateDraw: real, pickDraw: real)
    requires |b| == 9 && b[0] == Mark(O) && b[1] == Mark(O) && b[2] == Empty
    requires b[3] == Mark(X) && b[4] == Mark(X) && b[5] == Empty
    requires b[6] == Empty && b[7] == Empty && b[8] == Empty
    requires 0.0 <= pickDraw < 1.0
    ensures ChooseMove(b, X, O, 2, gateDraw, pickDraw) == 5
  {
    MiddleRowWins(Place(b, 5, X));
    forall m | 0 <= m < 5 && b[m] == Empty
      ensures CheckWinner(Place(b, m, X)) != Mark(X)
    {
      assert m == 2;
      NoLineAfterBlock(Place(b, 2, X));
    }
    SearchTakesFirstWin(b, X, O, 5);
  }
}
