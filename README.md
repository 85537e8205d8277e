# Tic-tac-toe game state, modelled in Dafny

The repository is a React tic-tac-toe board (`src/index.js`). Its logic is a
small state machine hidden inside the `Board` component:

- `checkWinner(sqrs)` scans a fixed table of the eight winning triples (three
  rows, three columns, two diagonals, in that order) and returns the mark of the
  first triple whose squares are filled with one mark, or `null`;
- the component's state holds the nine `squares`, the turn flag `isX`, the move
  counter `turns` and a `finished` latch;
- `handleClick(i)` is the only move: it ignores a click on a filled square or on
  a finished game, and otherwise writes the mover's mark, passes the turn and
  counts the move;
- `render` derives the status line (winner, else a draw when `turns` is 9, else
  the next player) and, on a win or a draw, latches `finished` by assigning the
  state directly.

The model has four modules:

- `Cells` (`cells.dfy`): marks X and O, the square values (`Empty` is the
  JavaScript `null`), and `Count`, the tally of squares holding a value, with
  the lemmas about how a write changes it.
- `Winner` (`winner.dfy`): the table `Lines`, the specification of the scan
  (`Scan`, `WinnerOf`) in terms of which lines are complete and which comes
  first, and `CheckWinner`, the source's `for` loop with its early return,
  proved equal to it.
- `Game` (`board.dfy`): the status datatype, the status derivation `StatusOf`,
  the invariant `Consistent` (the counter counts the marks on the board, X has
  as many marks as O when it is X's turn and one more otherwise) and the class
  `Board` whose fields are the component's state, with `HandleClick` and
  `Render`. `Board.Valid()` adds that `finished` is only ever set on a won or
  drawn board.
- `Scenarios` (`scenarios.dfy`): whole games played against the class, with a
  `Render` after every click as React does: a win on the top row after which
  clicks are refused, a game that ends in a draw, and a repeated click.

Decisions where the code and a plain reading of the game differ:

- The initial state spells the latch `finisehd`, so `finished` is undefined at
  first; the click guard reads it as false, and the constructor sets it to false.
- The status is not derived purely on demand: `render` latches `finished`, and
  only that latch stops moves after a win. The model keeps the latch as a field
  that `Render` sets, and proves it agrees with the derived status.
- A draw is detected from the counter (`turns == 9`), not from the squares;
  `Game.ConsistentBounds` shows the two agree on every reachable board.
- Refused clicks are silent no-ops with no error value, as in the code.

## Model

| member | source | states |
|---|---|---|
| `Winner.Scan` | src/index.js:49-59 | Scanning the table from entry k yields None exactly when no line from k on is complete, and otherwise a mark that owns one of those lines with no complete line between k and it |
| `Winner.WinnerOf` | src/index.js:38-60 | `checkWinner` returns null exactly when none of the eight lines is filled by one mark; when it returns a mark, that mark owns a line and every line listed before it is incomplete |
| `Winner.WinnerIsFirstCompleteLine` | src/index.js:39-57 | Both directions: the result is `m` if and only if `m` owns the first complete line in table order (rows, then columns, then diagonals) |
| `Winner.OwnerHasThreeMarks` | src/index.js:55 | A line of the table is owned only by a mark that occupies at least three squares (the triples have distinct squares) |
| `Winner.EmptyBoardHasNoWinner` | src/index.js:49-59 | On nine empty squares no triple qualifies, so the result is null |
| `Winner.CheckWinner` | src/index.js:38-60 | The loop over the table with its early return computes exactly `WinnerOf` |
| `Game.ConsistentBounds` | src/index.js:86-93 | On a consistent board the counter lies in 0..9, `isX` holds exactly when it is even, and it is 9 exactly when no square is empty |
| `Game.MoveKeepsConsistent` | src/index.js:89-93 | Writing the mover's mark on an empty square, flipping `isX` and adding one to `turns` keeps the board consistent |
| `Game.StatusMeaning` | src/index.js:135-145 | A winner is reported whenever some line is complete, even with the counter at 9, and it owns the first complete line; a draw exactly when no line is complete and the board is full; otherwise some square is empty and X is next exactly when both have placed as many marks |
| `Game.EarlyMovesHaveNoWinner` | src/index.js:135-145 | Before the fifth move no line can be complete, so the status names the player to move |
| `Game.DrawnBoardIsFull` | src/index.js:140-142 | A board reported drawn has no empty square, so every click on it is refused by the occupied-square test |
| `Game.Board.constructor` | src/index.js:67-76 | A fresh board has nine empty squares, X to move, no moves counted and is not finished; its status is "X to move" |
| `Game.Board.HandleClick` | src/index.js:78-95 | A click on a filled square or on a finished game changes nothing; otherwise square i gets the mover's mark, every other square is unchanged, the turn flips and the counter grows by one; filled squares never change, `finished` is untouched and the invariant is kept |
| `Game.Board.Render` | src/index.js:132-145 | Returns the derived status and leaves `finished` set exactly when the game is won or drawn, latching it if it was not yet |
| `Scenarios.TopRowWin` | src/index.js:78-145 | X on 0, 1, 2 against O on 4, 5 is reported as won by X, and a later click on an empty square is refused |
| `Scenarios.FullBoardDraw` | src/index.js:78-145 | X on 0, 1, 5, 6, 8 and O on 2, 3, 4, 7 fill the board with no line and are reported as a draw |
| `Scenarios.RepeatedClick` | src/index.js:84-94 | A second click on the same square is refused: it keeps X and O is still to move |

## Left out

- The `Square` function component, `Board.renderSquare`, the JSX returned by `Board.render`, the `Game` component, `ReactDOM.render` and the stylesheet import: presentation with no game logic.
- The commented-out `Square` class: dead code.
- React's scheduling and merging of `setState`: the update in `handleClick` is modelled as one atomic assignment of `squares`, `isX` and `turns`, with `finished` left as it was.
- Clicks outside 0..8: `handleClick` performs no bounds check (an out-of-range write would grow the copied array), so `HandleClick` requires an index in range instead of inventing a rejection.
- The status text (`'Winner: '`, `'Ended in a Draw...'`, `'Next Player '`): modelled as the datatype `GameStatus`.
- Error outcomes for refused moves (out of range, occupied, game over): the code has none; a refused click returns silently.
