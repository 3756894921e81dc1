/**
 * The moves as the game makes them, on a 3x3 grid of cells updated in
 * place. The easy policy and the human's move write one cell directly.
 * The medium and hard policies try cells by marking and unmarking them,
 * then mark the cell they chose; each is proved against the board-value
 * definition of its choice.
 */
module Bots {
  import opened TicTacToe
  import opened Search

  /** The game's grid: three rows of three cells. */
  predicate Is3x3(a: array2<Cell>) {
    a.Length0 == 3 && a.Length1 == 3
  }

  /** The grid read as a board value, row by row. */
  function View(a: array2<Cell>): (b: Board)
    requires Is3x3(a)
    reads a
    ensures forall p :: At(b, p) == a[p.row, p.col]
  {
    [a[0, 0], a[0, 1], a[0, 2], a[1, 0], a[1, 1], a[1, 2], a[2, 0], a[2, 1], a[2, 2]]
  }

  /** Two boards that agree on every cell are the same board. */
  lemma SameCells(b: Board, c: Board)
    requires forall p :: At(b, p) == At(c, p)
    ensures b == c
  {
    forall k | 0 <= k < 9 ensures b[k] == c[k] {
      assert At(b, PosAt(k)) == At(c, PosAt(k));
    }
  }

  /** Writes mark m into cell p of the grid. */
  method Put(a: array2<Cell>, p: Pos, m: Cell)
    requires Is3x3(a)
    modifies a
    ensures View(a) == Place(old(View(a)), p, m)
  {
    ghost var b := View(a);
    a[p.row, p.col] := m;
    PlaceChangesOneCell(b, p, m);
    SameCells(View(a), Place(b, p, m));
  }

  /**
   * The human's move once the two numbers are read: the 1-based row and
   * column are accepted exactly when they name a blank cell, which then
   * receives X; otherwise the grid is left as it was.
   */
  method PlayerMove(a: array2<Cell>, row: int, col: int) returns (accepted: bool)
    requires Is3x3(a)
    modifies a
    ensures accepted <==> 1 <= row <= 3 && 1 <= col <= 3 && At(old(View(a)), Pos(row - 1, col - 1)) == Empty
    ensures accepted ==> View(a) == Place(old(View(a)), Pos(row - 1, col - 1), X)
    ensures !accepted ==> View(a) == old(View(a))
  {
    var r, c := row - 1, col - 1;
    if 0 <= r < 3 && 0 <= c < 3 && Pos(r, c) in EmptyPositions(View(a)) {
      EmptyPositionsMembers(View(a));
      Put(a, Pos(r, c), X);
      accepted := true;
    } else {
      if 0 <= r < 3 && 0 <= c < 3 {
        EmptyPositionsMembers(View(a));
      }
      accepted := false;
    }
  }

  /** The easy policy marks some blank cell with O; which one is left open. */
  method BotMoveEasy(a: array2<Cell>) returns (move: Pos)
    requires Is3x3(a) && !IsDraw(View(a))
    modifies a
    ensures At(old(View(a)), move) == Empty
    ensures View(a) == Place(old(View(a)), move, O)
  {
    var moves := EmptyPositions(View(a));
    EmptyPositionsNoneIffFull(View(a));
    EmptyPositionsMembers(View(a));
    move :| move in moves;
    Put(a, move, O);
  }

  /**
   * The greedy policy: try each blank cell for O and keep the first that
   * wins; else try each blank cell for X and put O on the first that would
   * win for X; else play as the easy policy.
   */
  method BotMoveMedium(a: array2<Cell>) returns (move: Pos)
    requires Is3x3(a) && !IsDraw(View(a))
    modifies a
    ensures At(old(View(a)), move) == Empty
    ensures View(a) == Place(old(View(a)), move, O)
    ensures MediumChoice(old(View(a))).Some? ==> move == MediumChoice(old(View(a))).value
  {
    var b := View(a);
    var moves := EmptyPositions(b);
    var i := 0;
    while i < |moves|
      invariant 0 <= i <= |moves|
      invariant View(a) == b
      invariant FirstCompleting(b, moves[i..], O) == FirstCompleting(b, moves, O)
    {
      var p := moves[i];
      assert moves[i..] == [p] + moves[i + 1..];
      Put(a, p, O);
      if Wins(View(a), O) {
        return p;
      }
      Put(a, p, Empty);
      PlaceUndo(b, p, O);
      i := i + 1;
    }
    assert moves[i..] == [];
    i := 0;
    while i < |moves|
      invariant 0 <= i <= |moves|
      invariant View(a) == b
      invariant FirstCompleting(b, moves[i..], X) == FirstCompleting(b, moves, X)
    {
      var p := moves[i];
      assert moves[i..] == [p] + moves[i + 1..];
      Put(a, p, X);
      if Wins(View(a), X) {
        Put(a, p, O);
        PlaceTwice(b, p, X, O);
        return p;
      }
      Put(a, p, Empty);
      PlaceUndo(b, p, X);
      i := i + 1;
    }
    assert moves[i..] == [];
    move := BotMoveEasy(a);
  }

  /**
   * The inner search on the grid: every blank cell is marked for the
   * mover, searched one level deeper and unmarked again, keeping the best
   * value. The grid ends as it began and the value is Minimax.
   */
  method MinimaxInPlace(a: array2<Cell>, depth: nat, maximizing: bool) returns (score: int)
    requires Is3x3(a)
    modifies a
    ensures View(a) == old(View(a))
    ensures score == Minimax(old(View(a)), depth, maximizing)
    decreases Empties(View(a))
  {
    var b := View(a);
    if Wins(b, O) {
      return 10 - depth;
    }
    if Wins(b, X) {
      return depth - 10;
    }
    if IsDraw(b) {
      return 0;
    }
    var moves := EmptyPositions(b);
    var mark := Mover(maximizing);
    var best := if maximizing then NegInf else PosInf;
    var i := 0;
    while i < |moves|
      invariant 0 <= i <= |moves|
      invariant View(a) == b
      invariant Fold(b, moves[i..], depth, maximizing, best) == Minimax(b, depth, maximizing)
    {
      var p := moves[i];
      assert moves[i..] == [p] + moves[i + 1..];
      Put(a, p, mark);
      PlaceOnEmpty(b, p, mark);
      var s := MinimaxInPlace(a, depth + 1, !maximizing);
      Put(a, p, Empty);
      PlaceUndo(b, p, mark);
      best := if maximizing then Max(best, s) else Min(best, s);
      i := i + 1;
    }
    assert moves[i..] == [];
    return best;
  }

  /**
   * The hard policy: score every blank cell by marking it O and searching
   * the opponent's replies from depth 0, keep the first cell of strictly
   * greatest score, and mark it.
   */
  method BotMoveHard(a: array2<Cell>) returns (move: Pos)
    requires Is3x3(a) && !IsDraw(View(a))
    modifies a
    ensures Some(move) == HardChoice(old(View(a)))
    ensures At(old(View(a)), move) == Empty
    ensures View(a) == Place(old(View(a)), move, O)
  {
    var b := View(a);
    var moves := EmptyPositions(b);
    ghost var scores := RootScores(b, moves);
    var bestScore := NegInf;
    var bestMove: Option<Pos> := None;
    var i := 0;
    while i < |moves|
      invariant 0 <= i <= |moves|
      invariant View(a) == b
      invariant BestFrom(moves[i..], scores[i..], bestScore, bestMove) == HardChoice(b)
    {
      var p := moves[i];
      assert moves[i..] == [p] + moves[i + 1..];
      assert scores[i..] == [scores[i]] + scores[i + 1..];
      Put(a, p, O);
      var s := MinimaxInPlace(a, 0, false);
      Put(a, p, Empty);
      PlaceUndo(b, p, O);
      if s > bestScore {
        bestScore := s;
        bestMove := Some(p);
      }
      i := i + 1;
    }
    assert moves[i..] == [];
    HardChoiceIsFirstBest(b);
    move := bestMove.value;
    Put(a, move, O);
  }
}
