/**
 * The `Board` component's game state: the nine squares, whose turn it is, the
 * move counter and the `finished` latch, with the one move transition
 * (`handleClick`) and the status derivation done at the top of `render`.
 */
module Game {
  import opened Cells
  import opened Winner

  /** What the status line shows: the next player, the winner, or a draw. */
  datatype GameStatus = InProgress(next: Mark) | Won(winner: Mark) | Drawn

  /** The mark placed by the player to move: X when `isX` holds, else O. */
  function MarkFor(isX: bool): Mark
  {
    if isX then X else O
  }

  /**
   * The relation a board reached by legal moves from the empty board keeps
   * between its squares, the turn flag and the counter: `turns` counts the
   * marks on the board, and X has placed as many marks as O when it is X's
   * turn and one more otherwise.
   */
  ghost predicate Consistent(squares: seq<Cell>, isX: bool, turns: int)
  {
    && |squares| == 9
    && turns == Count(squares, Marked(X)) + Count(squares, Marked(O))
    && Count(squares, Marked(X)) == Count(squares, Marked(O)) + (if isX then 0 else 1)
  }

  /**
   * The status `render` derives: a winner first, else a draw when the counter
   * has reached 9, else the player to move.
   */
  function StatusOf(squares: seq<Cell>, isX: bool, turns: int): GameStatus
    requires |squares| == 9
  {
    match WinnerOf(squares)
    case Some(m) => Won(m)
    case None => if turns == 9 then Drawn else InProgress(MarkFor(isX))
  }

  /** The counter stays within 0..9, its parity is the turn flag, and it is 9 exactly when the board is full. */
  lemma ConsistentBounds(squares: seq<Cell>, isX: bool, turns: int)
    requires Consistent(squares, isX, turns)
    ensures 0 <= turns <= 9
    ensures isX <==> turns % 2 == 0
    ensures turns == 9 <==> forall i | 0 <= i < 9 :: squares[i] != Empty
  {
    CountPartition(squares);
  }

  /** A legal move keeps the board consistent: the mover's tally grows by one and the turn passes. */
  lemma MoveKeepsConsistent(squares: seq<Cell>, isX: bool, turns: int, i: int)
    requires Consistent(squares, isX, turns)
    requires 0 <= i < 9 && squares[i] == Empty
    ensures Consistent(squares[i := Marked(MarkFor(isX))], !isX, turns + 1)
  {
    CountUpdate(squares, i, Marked(MarkFor(isX)), Marked(X));
    CountUpdate(squares, i, Marked(MarkFor(isX)), Marked(O));
  }

  /**
   * What each status means on a consistent board. A winner is reported
   * whenever some line is complete, whatever the counter says; a draw exactly
   * when no line is complete and every square is filled; otherwise the game
   * goes on, some square is still empty, and the player to move is X exactly
   * when both players have placed as many marks.
   */
  lemma StatusMeaning(squares: seq<Cell>, isX: bool, turns: int)
    requires Consistent(squares, isX, turns)
    ensures StatusOf(squares, isX, turns).Won? <==> exists j | 0 <= j < |Lines| :: Complete(squares, Lines[j])
    ensures StatusOf(squares, isX, turns).Won? ==> FirstWinBy(squares, StatusOf(squares, isX, turns).winner)
    ensures StatusOf(squares, isX, turns) == Drawn <==>
      (forall j | 0 <= j < |Lines| :: !Complete(squares, Lines[j])) &&
      (forall i | 0 <= i < 9 :: squares[i] != Empty)
    ensures StatusOf(squares, isX, turns).InProgress? <==>
      (forall j | 0 <= j < |Lines| :: !Complete(squares, Lines[j])) &&
      (exists i | 0 <= i < 9 :: squares[i] == Empty)
    ensures StatusOf(squares, isX, turns).InProgress? ==>
      (StatusOf(squares, isX, turns).next == X <==> Count(squares, Marked(X)) == Count(squares, Marked(O)))
  {
    ConsistentBounds(squares, isX, turns);
  }

  /** Nobody can have won before the fifth move: a win takes three marks of one player. */
  lemma EarlyMovesHaveNoWinner(squares: seq<Cell>, isX: bool, turns: int)
    requires Consistent(squares, isX, turns) && turns < 5
    ensures WinnerOf(squares) == None
    ensures StatusOf(squares, isX, turns) == InProgress(MarkFor(isX))
  {
    if WinnerOf(squares).Some? {
      var j :| 0 <= j < |Lines| && Complete(squares, Lines[j]);
      var m := squares[Lines[j].a].mark;
      OwnerHasThreeMarks(squares, j, m);
      assert Count(squares, Marked(X)) <= 2 && Count(squares, Marked(O)) <= 2;
      if m == X {} else {}
      assert false;
    }
  }

  /** A drawn board has no empty square, so every click on it is refused even before `finished` is latched. */
  lemma DrawnBoardIsFull(squares: seq<Cell>, isX: bool, turns: int, i: int)
    requires Consistent(squares, isX, turns) && StatusOf(squares, isX, turns) == Drawn
    requires 0 <= i < 9
    ensures squares[i] != Empty
  {
    ConsistentBounds(squares, isX, turns);
  }

  class Board {
    var squares: seq<Cell>
    var isX: bool
    var turns: int
    var finished: bool

    /** The object invariant: a consistent board, and `finished` only ever latched on a finished game. */
    ghost predicate Valid()
      reads this
    {
      Consistent(squares, isX, turns) && (finished ==> !StatusOf(squares, isX, turns).InProgress?)
    }

    /**
     * A fresh board: nine empty squares, X to move, no moves made. The
     * initial state spells the latch `finisehd`, so `finished` starts out
     * undefined, which the click guard reads as false.
     */
    constructor ()
      ensures Valid()
      ensures squares == seq(9, _ => Empty) && isX && turns == 0 && !finished
      ensures StatusOf(squares, isX, turns) == InProgress(X)
    {
      squares := seq(9, _ => Empty);
      isX := true;
      turns := 0;
      finished := false;
      EmptyBoardHasNoWinner();
    }

    /**
     * `handleClick(i)`: a click on a filled square, or after the game was
     * latched finished, changes nothing; otherwise the player to move marks
     * square `i`, the turn passes and the counter grows by one.
     */
    method HandleClick(i: int)
      requires Valid() && 0 <= i < 9
      modifies this
      ensures Valid()
      ensures old(squares[i]) != Empty || old(finished) ==>
        squares == old(squares) && isX == old(isX) && turns == old(turns)
      ensures old(squares[i]) == Empty && !old(finished) ==>
        && squares == old(squares)[i := Marked(MarkFor(old(isX)))]
        && squares[i] == Marked(MarkFor(old(isX)))
        && (forall j | 0 <= j < 9 && j != i :: squares[j] == old(squares[j]))
        && isX == !old(isX)
        && turns == old(turns) + 1
      ensures |squares| == 9 && forall j | 0 <= j < 9 && old(squares[j]) != Empty :: squares[j] == old(squares[j])
      ensures finished == old(finished)
    {
      var next := squares;
      if next[i] != Empty || finished {
        return;
      }
      next := next[i := Marked(if isX then X else O)];
      MoveKeepsConsistent(squares, isX, turns, i);
      squares, isX, turns := next, !isX, turns + 1;
    }

    /**
     * The status derivation at the top of `render`: returns the status shown
     * and latches `finished` when the game has been won or drawn.
     */
    method Render() returns (status: GameStatus)
      requires Valid()
      modifies this`finished
      ensures Valid()
      ensures status == StatusOf(squares, isX, turns)
      ensures finished == (old(finished) || !status.InProgress?)
      ensures finished <==> !status.InProgress?
    {
      var winner := CheckWinner(squares);
      if winner.Some? {
        status := Won(winner.value);
        finished := true;
      } else if turns == 9 {
        status := Drawn;
        finished := true;
      } else {
        status := InProgress(if isX then X else O);
      }
    }
  }
}
