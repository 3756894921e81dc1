/**
 * Concrete positions and what each query and policy makes of them.
 * Boards are written row by row; each lemma takes its board as a
 * parameter pinned by its precondition.
 */
module Scenarios {
  import opened TicTacToe
  import opened Search

  /**
   *  X | X | .
   *  O | O | .
   *  . | . | .
   */
  lemma BlanksOfWinBoard(b: Board)
    requires b == [X, X, Empty, O, O, Empty, Empty, Empty, Empty]
    ensures EmptyPositions(b) == [Pos(0, 2), Pos(1, 2), Pos(2, 0), Pos(2, 1), Pos(2, 2)]
  {
    assert EmptyFrom(b, 6) == [Pos(2, 0), Pos(2, 1), Pos(2, 2)] by {
      assert EmptyFrom(b, 9) == [];
      assert EmptyFrom(b, 8) == [Pos(2, 2)];
      assert EmptyFrom(b, 7) == [Pos(2, 1), Pos(2, 2)];
    }
    assert EmptyFrom(b, 3) == [Pos(1, 2), Pos(2, 0), Pos(2, 1), Pos(2, 2)] by {
      assert EmptyFrom(b, 5) == [Pos(1, 2), Pos(2, 0), Pos(2, 1), Pos(2, 2)];
      assert EmptyFrom(b, 4) == EmptyFrom(b, 5);
    }
    assert EmptyFrom(b, 2) == [Pos(0, 2), Pos(1, 2), Pos(2, 0), Pos(2, 1), Pos(2, 2)];
    assert EmptyFrom(b, 1) == EmptyFrom(b, 2);
  }

  /**
   * On the board above, O completes the middle row at (1, 2) while X could
   * complete the top row at (0, 2): both computer policies take the win
   * rather than the block, although the block comes first in row-major order.
   */
  lemma WinBeforeBlock(b: Board)
    requires b == [X, X, Empty, O, O, Empty, Empty, Empty, Empty]
    ensures Completes(b, Pos(0, 2), X)
    ensures MediumChoice(b) == Some(Pos(1, 2))
    ensures HardChoice(b) == Some(Pos(1, 2))
  {
    BlanksOfWinBoard(b);
    var moves := EmptyPositions(b);
    assert !Completes(b, Pos(0, 2), O) by {
      var c := Place(b, Pos(0, 2), O);
      assert !RowFilled(c, 0, O) && !RowFilled(c, 1, O) && !RowFilled(c, 2, O);
      assert !ColFilled(c, 0, O) && !ColFilled(c, 1, O) && !ColFilled(c, 2, O);
    }
    assert Completes(b, Pos(1, 2), O) by {
      assert RowFilled(Place(b, Pos(1, 2), O), 1, O);
    }
    assert Completes(b, Pos(0, 2), X) by {
      assert RowFilled(Place(b, Pos(0, 2), X), 0, X);
    }
    assert FirstCompleting(b, moves, O) == Some(Pos(1, 2)) by {
      assert moves[1..][0] == Pos(1, 2);
    }
    assert moves[1] in moves;
    HardTakesImmediateWin(b);
  }

  /**
   *  X | X | .
   *  . | O | .
   *  . | . | .
   */
  lemma BlanksOfBlockBoard(b: Board)
    requires b == [X, X, Empty, Empty, O, Empty, Empty, Empty, Empty]
    ensures EmptyPositions(b) == [Pos(0, 2), Pos(1, 0), Pos(1, 2), Pos(2, 0), Pos(2, 1), Pos(2, 2)]
  {
    assert EmptyFrom(b, 6) == [Pos(2, 0), Pos(2, 1), Pos(2, 2)] by {
      assert EmptyFrom(b, 9) == [];
      assert EmptyFrom(b, 8) == [Pos(2, 2)];
      assert EmptyFrom(b, 7) == [Pos(2, 1), Pos(2, 2)];
    }
    assert EmptyFrom(b, 3) == [Pos(1, 0), Pos(1, 2), Pos(2, 0), Pos(2, 1), Pos(2, 2)] by {
      assert EmptyFrom(b, 5) == [Pos(1, 2), Pos(2, 0), Pos(2, 1), Pos(2, 2)];
      assert EmptyFrom(b, 4) == EmptyFrom(b, 5);
    }
    assert EmptyFrom(b, 2) == [Pos(0, 2), Pos(1, 0), Pos(1, 2), Pos(2, 0), Pos(2, 1), Pos(2, 2)];
    assert EmptyFrom(b, 1) == EmptyFrom(b, 2);
  }

  /**
   * On the board above no blank cell wins for O and (0, 2) would win for
   * X: the greedy policy blocks there.
   */
  lemma MediumBlocks(b: Board)
    requires b == [X, X, Empty, Empty, O, Empty, Empty, Empty, Empty]
    ensures MediumChoice(b) == Some(Pos(0, 2))
  {
    BlanksOfBlockBoard(b);
    var moves := EmptyPositions(b);
    forall j | 0 <= j < |moves| ensures !Completes(b, moves[j], O) {
      var c := Place(b, moves[j], O);
      assert !RowFilled(c, 0, O) && !RowFilled(c, 1, O) && !RowFilled(c, 2, O);
      assert !ColFilled(c, 0, O) && !ColFilled(c, 1, O) && !ColFilled(c, 2, O);
    }
    FirstCompletingIsFirst(b, moves, O);
    assert RowFilled(Place(b, Pos(0, 2), X), 0, X);
  }

  /**
   *  X | O | X
   *  X | O | O
   *  O | X | X
   * A full board on which nobody holds a line: a draw, and neither policy
   * has a cell to choose.
   */
  lemma FullBoardNoLine(b: Board)
    requires b == [X, O, X, X, O, O, O, X, X]
    ensures IsDraw(b) && !Wins(b, X) && !Wins(b, O)
    ensures EmptyPositions(b) == [] && MediumChoice(b) == None && HardChoice(b) == None
  {
    EmptyPositionsNoneIffFull(b);
    assert !RowFilled(b, 0, X) && !RowFilled(b, 1, X) && !RowFilled(b, 2, X);
    assert !ColFilled(b, 0, X) && !ColFilled(b, 1, X) && !ColFilled(b, 2, X);
    assert !RowFilled(b, 0, O) && !RowFilled(b, 1, O) && !RowFilled(b, 2, O);
    assert !ColFilled(b, 0, O) && !ColFilled(b, 1, O) && !ColFilled(b, 2, O);
  }

  /**
   *  O | X | X
   *  X | O | O
   *  X | O | O
   * A full board counts as a draw even when O holds the main diagonal.
   */
  lemma FullBoardWithLine(b: Board)
    requires b == [O, X, X, X, O, O, X, O, O]
    ensures IsDraw(b) && Wins(b, O)
  {
    assert DiagFilled(b, O);
  }
}
