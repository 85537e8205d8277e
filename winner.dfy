/**
 * Win detection: the component's `checkWinner`.
 *
 * The table `Lines` lists the eight winning triples in the order the source
 * scans them: the three rows, the three columns, then the two diagonals.
 * `Scan` and `WinnerOf` are the specification of the scan; the method
 * `CheckWinner` is the source's loop with its early return, proved to agree.
 */
module Winner {
  import opened Cells

  /** A square's position, 0 to 8 in row-major order. */
  type Index = i: int | 0 <= i < 9

  /** Three squares that win when they carry the same mark. */
  datatype Line = Line(a: Index, b: Index, c: Index)

  const Lines: seq<Line> := [
    Line(0, 1, 2), Line(3, 4, 5), Line(6, 7, 8),
    Line(0, 3, 6), Line(1, 4, 7), Line(2, 5, 8),
    Line(0, 4, 8), Line(2, 4, 6)
  ]

  /** All three squares of `l` carry `m`. */
  predicate Owns(s: seq<Cell>, l: Line, m: Mark)
    requires |s| == 9
  {
    s[l.a] == Marked(m) && s[l.b] == Marked(m) && s[l.c] == Marked(m)
  }

  /** Line `l` is filled by a single mark, the one in its first square. */
  predicate Complete(s: seq<Cell>, l: Line)
    requires |s| == 9
  {
    s[l.a].Marked? && Owns(s, l, s[l.a].mark)
  }

  /** `m` owns a line of the table and every line listed before it is incomplete. */
  ghost predicate FirstWinBy(s: seq<Cell>, m: Mark)
    requires |s| == 9
  {
    exists j | 0 <= j < |Lines| ::
      Owns(s, Lines[j], m) && forall i | 0 <= i < j :: !Complete(s, Lines[i])
  }

  /**
   * The scan of the table from entry `k` on: the mark of the first triple whose
   * first square is non-empty and equal to the other two, or None.
   */
  function Scan(s: seq<Cell>, k: nat): (r: Option<Mark>)
    requires |s| == 9 && k <= |Lines|
    ensures r.None? <==> forall j | k <= j < |Lines| :: !Complete(s, Lines[j])
    ensures r.Some? ==> exists j | k <= j < |Lines| ::
      Owns(s, Lines[j], r.value) && forall i | k <= i < j :: !Complete(s, Lines[i])
    decreases |Lines| - k
  {
    if k == |Lines| then None
    else
      var l := Lines[k];
      if s[l.a] != Empty && s[l.a] == s[l.b] && s[l.b] == s[l.c] then Some(s[l.a].mark)
      else Scan(s, k + 1)
  }

  /** What `checkWinner` returns for the board `s`. */
  function WinnerOf(s: seq<Cell>): (r: Option<Mark>)
    requires |s| == 9
    ensures r.None? <==> forall j | 0 <= j < |Lines| :: !Complete(s, Lines[j])
    ensures r.Some? ==> FirstWinBy(s, r.value)
  {
    Scan(s, 0)
  }

  /** The reported mark is exactly the owner of the first complete line in table order. */
  lemma WinnerIsFirstCompleteLine(s: seq<Cell>, m: Mark)
    requires |s| == 9
    ensures WinnerOf(s) == Some(m) <==> FirstWinBy(s, m)
  {
  }

  /** A line of the table is owned only by a mark that occupies at least three squares. */
  lemma OwnerHasThreeMarks(s: seq<Cell>, j: int, m: Mark)
    requires |s| == 9 && 0 <= j < |Lines| && Owns(s, Lines[j], m)
    ensures Count(s, Marked(m)) >= 3
  {
    var c, l := Marked(m), Lines[j];
    assert l.a != l.b && l.b != l.c && l.a != l.c;
    var t1 := s[l.a := Empty];
    var t2 := t1[l.b := Empty];
    CountUpdate(s, l.a, Empty, c);
    CountUpdate(t1, l.b, Empty, c);
    CountUpdate(t2, l.c, Empty, c);
  }

  /** The empty board has no winner. */
  lemma EmptyBoardHasNoWinner()
    ensures WinnerOf(seq(9, _ => Empty)) == None
  {
  }

  /** `checkWinner`: scans the table in order and returns on the first qualifying triple. */
  method CheckWinner(sqrs: seq<Cell>) returns (r: Option<Mark>)
    requires |sqrs| == 9
    ensures r == WinnerOf(sqrs)
  {
    for i := 0 to |Lines|
      invariant Scan(sqrs, i) == Scan(sqrs, 0)
    {
      var l := Lines[i];
      if sqrs[l.a] != Empty && sqrs[l.a] == sqrs[l.b] && sqrs[l.b] == sqrs[l.c] {
        return Some(sqrs[l.a].mark);
      }
    }
    return None;
  }
}
