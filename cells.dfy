/**
 * The values that fill the nine squares of a tic-tac-toe board.
 *
 * In the component a square holds `null` (empty), `'X'` or `'O'`; here that is
 * `Cell`, and a player's symbol is `Mark`. `Count` tallies the squares holding
 * a given value, which is how the board's invariants are stated.
 */
module Cells {

  datatype Option<T> = None | Some(value: T)

  /** The two players' symbols. X moves first. */
  datatype Mark = X | O

  /** One square: empty (JavaScript `null`, which is falsy) or carrying a mark. */
  datatype Cell = Empty | Marked(mark: Mark)

  /** The number of squares of `s` that hold `c`. */
  function Count(s: seq<Cell>, c: Cell): (n: nat)
    ensures n <= |s|
    ensures n == 0 <==> forall i | 0 <= i < |s| :: s[i] != c
    ensures n == |s| <==> forall i | 0 <= i < |s| :: s[i] == c
  {
    if s == [] then 0
    else (if s[0] == c then 1 else 0) + Count(s[1..], c)
  }

  /** Writing `d` into square `i` moves that square from the tally of its old value to the tally of `d`. */
  lemma {:induction false} CountUpdate(s: seq<Cell>, i: int, d: Cell, c: Cell)
    requires 0 <= i < |s|
    ensures Count(s[i := d], c) == Count(s, c) - (if s[i] == c then 1 else 0) + (if d == c then 1 else 0)
  {
    if i == 0 {
      assert s[i := d][1..] == s[1..];
    } else {
      assert s[i := d][1..] == s[1..][i - 1 := d];
      CountUpdate(s[1..], i - 1, d, c);
    }
  }

  /** Every square is empty, an X or an O, so the three tallies add up to the board's size. */
  lemma {:induction false} CountPartition(s: seq<Cell>)
    ensures Count(s, Empty) + Count(s, Marked(X)) + Count(s, Marked(O)) == |s|
  {
    if s != [] {
      CountPartition(s[1..]);
      match s[0]
      case Empty =>
      case Marked(m) => if m == X {} else {}
    }
  }
}
