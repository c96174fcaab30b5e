/** The evaluator: who has won, and whether the board is full. */
module Result {
  import opened Grid

  /** All three cells of line l hold m. */
  predicate Completes(b: Board, l: Line, m: Mark) {
    ValidLine(l) && At(b, l.a) == Some(m) && At(b, l.b) == Some(m) && At(b, l.c) == Some(m)
  }

  /** Some line of the table is completed by m. */
  ghost predicate HasLine(b: Board, m: Mark) {
    exists l :: l in Lines && Completes(b, l, m)
  }

  /** The common mark of three cells that are equal and not empty, or None. */
  function Owner(x: Cell, y: Cell, z: Cell): (r: Cell)
    ensures r != None ==> r == x == y == z
  {
    if x == y == z && x != None then x else None
  }

  /** The test applied to each line: its three cells are equal and not empty; the
      mark they hold, or None. */
  function LineOwner(b: Board, l: Line): (r: Option<Mark>)
    requires ValidLine(l)
    ensures forall m :: r == Some(m) <==> Completes(b, l, m)
  {
    Owner(At(b, l.a), At(b, l.b), At(b, l.c))
  }

  /** The scan over a list of lines: the mark of the first line whose three cells are
      equal and not empty. */
  function WinnerFrom(b: Board, lines: seq<Line>): Option<Mark>
    requires ValidLines(lines)
  {
    if lines == [] then None
    else
      var owner := LineOwner(b, lines[0]);
      if owner != None then owner else WinnerFrom(b, lines[1..])
  }

  /** The scan reports a mark only if that mark completes one of the lines, and reports
      None exactly when no line is completed. */
  lemma {:induction false} WinnerFromMeaning(b: Board, lines: seq<Line>)
    requires ValidLines(lines)
    ensures WinnerFrom(b, lines).Some? ==> exists l :: l in lines && Completes(b, l, WinnerFrom(b, lines).value)
    ensures WinnerFrom(b, lines).None? <==> forall l, m :: l in lines ==> !Completes(b, l, m)
  {
    if lines != [] {
      WinnerFromMeaning(b, lines[1..]);
      assert forall l :: l in lines <==> l == lines[0] || l in lines[1..];
    }
  }

  /** When several lines are completed, the one reported is the first in list order. */
  lemma {:induction false} FirstCompletedLineWins(b: Board, lines: seq<Line>, j: nat, m: Mark)
    requires ValidLines(lines) && j < |lines| && Completes(b, lines[j], m)
    requires forall i, m' :: 0 <= i < j ==> !Completes(b, lines[i], m')
    ensures WinnerFrom(b, lines) == Some(m)
  {
    if j > 0 {
      assert !Completes(b, lines[0], X) && !Completes(b, lines[0], O);
      FirstCompletedLineWins(b, lines[1..], j - 1, m);
    }
  }

  /** The winner: the rows top to bottom, then the columns left to right, then the main
      diagonal, then the anti-diagonal from (2, 0); the mark of the first line whose three
      cells are equal and not empty, or None. Cell (row, col) is b[3 * row + col]. */
  function Winner(b: Board): Option<Mark> {
    if Owner(b[0], b[1], b[2]) != None then b[0]
    else if Owner(b[3], b[4], b[5]) != None then b[3]
    else if Owner(b[6], b[7], b[8]) != None then b[6]
    else if Owner(b[0], b[3], b[6]) != None then b[0]
    else if Owner(b[1], b[4], b[7]) != None then b[1]
    else if Owner(b[2], b[5], b[8]) != None then b[2]
    else if Owner(b[0], b[4], b[8]) != None then b[0]
    else if Owner(b[6], b[4], b[2]) != None then b[6]
    else None
  }

  /** One step of the table scan from position k. */
  lemma WinnerFromStep(b: Board, lines: seq<Line>, k: nat)
    requires ValidLines(lines) && k < |lines|
    ensures WinnerFrom(b, lines[k..]) ==
            if LineOwner(b, lines[k]) != None then LineOwner(b, lines[k]) else WinnerFrom(b, lines[k + 1..])
  {
    assert lines[k..][1..] == lines[k + 1..];
  }

  /** The eight entries of the line table, read on a board: line k of the table is the
      k-th check of the evaluator. */
  lemma LineTableCells(b: Board)
    ensures |Lines| == 8 && ValidLines(Lines)
    ensures LineOwner(b, Lines[0]) == Owner(b[0], b[1], b[2])
    ensures LineOwner(b, Lines[1]) == Owner(b[3], b[4], b[5])
    ensures LineOwner(b, Lines[2]) == Owner(b[6], b[7], b[8])
    ensures LineOwner(b, Lines[3]) == Owner(b[0], b[3], b[6])
    ensures LineOwner(b, Lines[4]) == Owner(b[1], b[4], b[7])
    ensures LineOwner(b, Lines[5]) == Owner(b[2], b[5], b[8])
    ensures LineOwner(b, Lines[6]) == Owner(b[0], b[4], b[8])
    ensures LineOwner(b, Lines[7]) == Owner(b[6], b[4], b[2])
  {
    LinesValid();
  }

  /** The evaluator's checks are the scan of the line table: the same lines in the same
      order. */
  lemma WinnerScansLines(b: Board)
    ensures Winner(b) == WinnerFrom(b, Lines)
  {
    LineTableCells(b);
    assert Lines[0..] == Lines;
    assert Lines[8..] == [];
    WinnerFromStep(b, Lines, 7);
    WinnerFromStep(b, Lines, 6);
    WinnerFromStep(b, Lines, 5);
    WinnerFromStep(b, Lines, 4);
    WinnerFromStep(b, Lines, 3);
    WinnerFromStep(b, Lines, 2);
    WinnerFromStep(b, Lines, 1);
    WinnerFromStep(b, Lines, 0);
  }

  /** Winner reports a mark only if that mark completes some line, and reports None
      exactly when no line is completed. */
  lemma WinnerMeaning(b: Board)
    ensures Winner(b).Some? ==> HasLine(b, Winner(b).value)
    ensures Winner(b).None? <==> forall m :: !HasLine(b, m)
  {
    LinesValid();
    WinnerScansLines(b);
    WinnerFromMeaning(b, Lines);
    if Winner(b).Some? {
      assert HasLine(b, Winner(b).value);
    }
  }

  /** The tie test: every cell holds a mark. It does not look at lines, so a full board
      that some line wins is a tie as well. */
  function Tie(b: Board): (r: bool)
    ensures r <==> Empties(b) == 0
  {
    forall i :: 0 <= i < 9 ==> b[i] != None
  }

  /** Tie does not look at lines: every full board is a tie whoever has won it, and a
      full board that X has won (its top row) exists. */
  lemma TieIgnoresWinner()
    ensures forall b: Board :: Empties(b) == 0 ==> Tie(b)
    ensures exists b: Board :: Tie(b) && Winner(b) == Some(X)
  {
    var b: Board := [Some(X), Some(X), Some(X), Some(O), Some(O), Some(X), Some(X), Some(O), Some(O)];
    LinesValid();
    FirstCompletedLineWins(b, Lines, 0, X);
    assert Tie(b) && Winner(b) == Some(X);
  }
}
