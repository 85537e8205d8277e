/**
 * Whole games played against the `Board` class as the component drives it:
 * one `Render` when the board is mounted and one after every click.
 */
module Scenarios {
  import opened Cells
  import opened Winner
  import opened Game

  /**
   * X plays 0, 1, 2 while O plays 4, 5: the top row wins for X. A later click
   * on the empty square 3 is refused because the win latched `finished`.
   */
  method TopRowWin() returns (status: GameStatus, after: Cell)
    ensures status == Won(X)
    ensures after == Empty
  {
    var b := new Board();
    status := b.Render();
    b.HandleClick(0);
    EarlyMovesHaveNoWinner(b.squares, b.isX, b.turns);
    status := b.Render();
    b.HandleClick(4);
    EarlyMovesHaveNoWinner(b.squares, b.isX, b.turns);
    status := b.Render();
    b.HandleClick(1);
    EarlyMovesHaveNoWinner(b.squares, b.isX, b.turns);
    status := b.Render();
    b.HandleClick(5);
    EarlyMovesHaveNoWinner(b.squares, b.isX, b.turns);
    status := b.Render();
    b.HandleClick(2);
    TopRowBoard(b.squares);
    status := b.Render();
    b.HandleClick(3);
    after := b.squares[3];
  }

  /** X owning the top row, the first line of the table, is reported as the winner whatever the other squares hold. */
  lemma TopRowBoard(s: seq<Cell>)
    requires |s| == 9 && s[0] == Marked(X) && s[1] == Marked(X) && s[2] == Marked(X)
    ensures WinnerOf(s) == Some(X)
  {
  }

  /** X plays 0, 1, 5, 6, 8 and O plays 2, 3, 4, 7: the board fills with no line and the game is drawn. */
  method FullBoardDraw() returns (status: GameStatus)
    ensures status == Drawn
  {
    var b := new Board();
    status := b.Render();
    b.HandleClick(0);
    EarlyMovesHaveNoWinner(b.squares, b.isX, b.turns);
    status := b.Render();
    b.HandleClick(2);
    EarlyMovesHaveNoWinner(b.squares, b.isX, b.turns);
    status := b.Render();
    b.HandleClick(1);
    EarlyMovesHaveNoWinner(b.squares, b.isX, b.turns);
    status := b.Render();
    b.HandleClick(3);
    EarlyMovesHaveNoWinner(b.squares, b.isX, b.turns);
    status := b.Render();
    b.HandleClick(5);
    DrawGameBoard(b.squares);
    status := b.Render();
    b.HandleClick(4);
    DrawGameBoard(b.squares);
    status := b.Render();
    b.HandleClick(6);
    DrawGameBoard(b.squares);
    status := b.Render();
    b.HandleClick(7);
    DrawGameBoard(b.squares);
    status := b.Render();
    b.HandleClick(8);
    DrawGameBoard(b.squares);
    status := b.Render();
  }

  /** Every filled square of `s` holds what the drawn game ends with there: X on 0, 1, 5, 6, 8 and O on 2, 3, 4, 7. */
  ghost predicate TowardsDraw(s: seq<Cell>)
  {
    && |s| == 9
    && (s[0] == Empty || s[0] == Marked(X)) && (s[1] == Empty || s[1] == Marked(X))
    && (s[2] == Empty || s[2] == Marked(O)) && (s[3] == Empty || s[3] == Marked(O))
    && (s[4] == Empty || s[4] == Marked(O)) && (s[5] == Empty || s[5] == Marked(X))
    && (s[6] == Empty || s[6] == Marked(X)) && (s[7] == Empty || s[7] == Marked(O))
    && (s[8] == Empty || s[8] == Marked(X))
  }

  /** No position of the drawn game, up to and including the full board, has a complete line. */
  lemma DrawGameBoard(s: seq<Cell>)
    requires TowardsDraw(s)
    ensures WinnerOf(s) == None
  {
  }

  /** Clicking square 3 twice: the second click is refused, the square keeps X and O is still to move. */
  method RepeatedClick() returns (cell: Cell, status: GameStatus)
    ensures cell == Marked(X)
    ensures status == InProgress(O)
  {
    var b := new Board();
    status := b.Render();
    b.HandleClick(3);
    EarlyMovesHaveNoWinner(b.squares, b.isX, b.turns);
    status := b.Render();
    b.HandleClick(3);
    EarlyMovesHaveNoWinner(b.squares, b.isX, b.turns);
    status := b.Render();
    cell := b.squares[3];
  }
}
