/** The board of the move engine: nine cells in row-major order, the fixed
    table of winning lines, and the read-only queries the engine and its
    callers ask of a board (who has won, on which line, is it full, which
    cells are free). */
module Board {

  datatype Option<T> = None | Some(value: T)

  /** The two symbols, 'X' and 'O'. */
  datatype Player = X | O

  /** A cell is empty (null in the source) or holds a symbol. */
  datatype Cell = Empty | Mark(player: Player)

  /** An index into the 3x3 board: row * 3 + column. */
  type Index = i: nat | i < 9

  /** Three cells that win when they hold the same symbol. */
  type Line = (Index, Index, Index)

  /** The eight lines in the order every scan visits them:
      the rows, then the columns, then the two diagonals. */
  const Lines: seq<Line> :=
    [(0, 1, 2), (3, 4, 5), (6, 7, 8),
     (0, 3, 6), (1, 4, 7), (2, 5, 8),
     (0, 4, 8), (2, 4, 6)]

  /** Line `l` holds three equal symbols. */
  predicate Completed(b: seq<Cell>, l: Line)
    requires |b| == 9
  {
    b[l.0] != Empty && b[l.0] == b[l.1] && b[l.0] == b[l.2]
  }

  /** Line number `k` of the table is completed and no earlier one is. */
  predicate FirstCompleted(b: seq<Cell>, k: nat)
    requires |b| == 9
  {
    k < |Lines| && Completed(b, Lines[k]) &&
    forall j :: 0 <= j < k ==> !Completed(b, Lines[j])
  }

  /** The scan of `checkWinner` from table position `k` on. */
  function WinnerFrom(b: seq<Cell>, k: nat): (w: Cell)
    requires |b| == 9 && k <= |Lines|
    decreases |Lines| - k
    ensures w == Empty <==> forall j :: k <= j < |Lines| ==> !Completed(b, Lines[j])
    ensures w != Empty ==>
      exists j :: k <= j < |Lines| && Completed(b, Lines[j]) && w == b[Lines[j].0] &&
        forall i :: k <= i < j ==> !Completed(b, Lines[i])
  {
    if k == |Lines| then Empty
    else if Completed(b, Lines[k]) then b[Lines[k].0]
    else WinnerFrom(b, k + 1)
  }

  /** The symbol of the first completed line in table order, or Empty when
      no line is completed. */
  function CheckWinner(b: seq<Cell>): (w: Cell)
    requires |b| == 9
    ensures w == Empty <==> forall k :: 0 <= k < |Lines| ==> !Completed(b, Lines[k])
    ensures w != Empty ==> exists k: nat :: FirstCompleted(b, k) && w == b[Lines[k].0]
  {
    WinnerFrom(b, 0)
  }

  /** The scan of `getWinningLine` from table position `k` on. */
  function WinningLineFrom(b: seq<Cell>, k: nat): (r: Option<Line>)
    requires |b| == 9 && k <= |Lines|
    decreases |Lines| - k
    ensures r.None? <==> WinnerFrom(b, k) == Empty
    ensures r.Some? ==>
      exists j :: k <= j < |Lines| && r.value == Lines[j] && Completed(b, Lines[j]) &&
        forall i :: k <= i < j ==> !Completed(b, Lines[i])
    ensures r.Some? ==>
      b[r.value.0] == WinnerFrom(b, k) && b[r.value.1] == WinnerFrom(b, k) &&
      b[r.value.2] == WinnerFrom(b, k)
  {
    if k == |Lines| then None
    else if Completed(b, Lines[k]) then Some(Lines[k])
    else WinningLineFrom(b, k + 1)
  }

  /** The first completed line in table order: the very line whose symbol
      `CheckWinner` reports, and None exactly when there is no winner. */
  function GetWinningLine(b: seq<Cell>): (r: Option<Line>)
    requires |b| == 9
    ensures r.None? <==> CheckWinner(b) == Empty
    ensures r.Some? ==> exists k: nat :: FirstCompleted(b, k) && r.value == Lines[k]
    ensures r.Some? ==>
      b[r.value.0] == CheckWinner(b) && b[r.value.1] == CheckWinner(b) &&
      b[r.value.2] == CheckWinner(b)
  {
    WinningLineFrom(b, 0)
  }

  /** How many cells are empty. */
  function EmptyCount(b: seq<Cell>): nat
  {
    multiset(b)[Empty]
  }

  lemma {:induction false} EmptyCountAtMost(b: seq<Cell>)
    ensures EmptyCount(b) <= |b|
  {
    if b != [] {
      var init := b[..|b| - 1];
      assert b == init + [b[|b| - 1]];
      EmptyCountAtMost(init);
    }
  }

  /** The board is full: no cell is empty. */
  function IsBoardFull(b: seq<Cell>): (full: bool)
    ensures full <==> forall i :: 0 <= i < |b| ==> b[i] != Empty
    ensures full <==> EmptyCount(b) == 0
  {
    Empty !in b
  }

  /** The reduction of `getAvailableMoves` over the cells from `i` on. */
  function AvailableFrom(b: seq<Cell>, i: nat): (moves: seq<nat>)
    requires i <= |b|
    decreases |b| - i
    ensures forall k :: 0 <= k < |moves| ==> i <= moves[k] < |b| && b[moves[k]] == Empty
    ensures forall j :: i <= j < |b| && b[j] == Empty ==> j in moves
    ensures forall k, l :: 0 <= k < l < |moves| ==> moves[k] < moves[l]
  {
    if i == |b| then []
    else if b[i] == Empty then [i] + AvailableFrom(b, i + 1)
    else AvailableFrom(b, i + 1)
  }

  lemma MultisetCons(c: Cell, t: seq<Cell>)
    ensures multiset([c] + t)[Empty] == (if c == Empty then 1 else 0) + multiset(t)[Empty]
  {
    assert multiset([c] + t) == multiset{c} + multiset(t);
  }

  lemma {:induction false} AvailableFromCount(b: seq<Cell>, i: nat)
    requires i <= |b|
    ensures |AvailableFrom(b, i)| == EmptyCount(b[i..])
    decreases |b| - i
  {
    if i < |b| {
      AvailableFromCount(b, i + 1);
      MultisetCons(b[i], b[i + 1..]);
      assert b[i..] == [b[i]] + b[i + 1..];
    }
  }

  /** The indices of the empty cells, each once, in ascending order. */
  function GetAvailableMoves(b: seq<Cell>): (moves: seq<nat>)
    ensures forall k :: 0 <= k < |moves| ==> moves[k] < |b| && b[moves[k]] == Empty
    ensures forall j :: 0 <= j < |b| && b[j] == Empty ==> j in moves
    ensures forall k, l :: 0 <= k < l < |moves| ==> moves[k] < moves[l]
    ensures |moves| == EmptyCount(b)
    ensures moves == [] <==> IsBoardFull(b)
  {
    assert b[0..] == b;
    AvailableFromCount(b, 0);
    AvailableFrom(b, 0)
  }
}
