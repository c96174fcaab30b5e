/** The 3x3 board every part of the engine works on: cell coordinates, marks,
    the board value, the fixed table of winning lines and the corner/side lists. */
module Grid {

  datatype Option<T> = None | Some(value: T)

  /** The two symbols the game places ("X" and "O"). */
  datatype Mark = X | O

  /** What one cell holds: a mark, or nothing. */
  type Cell = Option<Mark>

  /** A cell coordinate (row, column). */
  datatype Pos = Pos(row: int, col: int)

  predicate ValidPos(p: Pos) {
    0 <= p.row < 3 && 0 <= p.col < 3
  }

  /** The board as a value: the nine cells in row-major order, which is also the order
      in which the grid dictionary was filled and is therefore iterated. */
  type Board = b: seq<Cell> | |b| == 9
    witness [None, None, None, None, None, None, None, None, None]

  /** Where a coordinate sits in the row-major order. */
  function Index(p: Pos): (i: int)
    requires ValidPos(p)
    ensures 0 <= i < 9
  {
    3 * p.row + p.col
  }

  /** The coordinate at a row-major position. */
  function PosAt(i: nat): (p: Pos)
    requires i < 9
    ensures ValidPos(p) && Index(p) == i
  {
    Pos(i / 3, i % 3)
  }

  /** Index and PosAt are inverse: the nine coordinates and the nine board slots match one to one. */
  lemma IndexPosAt(p: Pos)
    requires ValidPos(p)
    ensures PosAt(Index(p)) == p
  {
  }

  function At(b: Board, p: Pos): Cell
    requires ValidPos(p)
  {
    b[3 * p.row + p.col]
  }

  /** The board after writing c into the cell at p. */
  function Put(b: Board, p: Pos, c: Cell): (r: Board)
    requires ValidPos(p)
    ensures At(r, p) == c
    ensures forall q :: ValidPos(q) && q != p ==> At(r, q) == At(b, q)
  {
    IndexPosAt(p);
    b[Index(p) := c]
  }

  /** An empty cell counts 1, a marked cell 0. */
  function Blank(c: Cell): nat {
    if c == None then 1 else 0
  }

  /** Number of empty cells; zero exactly when the board is full. */
  function Empties(b: Board): (n: nat)
    ensures n == 0 <==> forall i :: 0 <= i < 9 ==> b[i] != None
  {
    Blank(b[0]) + Blank(b[1]) + Blank(b[2]) + Blank(b[3]) + Blank(b[4]) + Blank(b[5]) + Blank(b[6]) + Blank(b[7]) + Blank(b[8])
  }

  /** Writing a mark into an empty cell removes exactly one empty cell. */
  lemma EmptiesPlace(b: Board, i: int, m: Mark)
    requires 0 <= i < 9 && b[i] == None
    ensures Empties(b[i := Some(m)]) == Empties(b) - 1
  {
  }

  /** The board a fresh grid starts from. */
  const EmptyBoard: Board := [None, None, None, None, None, None, None, None, None]

  /** The nine coordinates in row-major order. */
  const AllPositions: seq<Pos> :=
    [Pos(0, 0), Pos(0, 1), Pos(0, 2), Pos(1, 0), Pos(1, 1), Pos(1, 2), Pos(2, 0), Pos(2, 1), Pos(2, 2)]

  const Corners: seq<Pos> := [Pos(0, 0), Pos(0, 2), Pos(2, 0), Pos(2, 2)]

  const Sides: seq<Pos> := [Pos(0, 1), Pos(1, 0), Pos(1, 2), Pos(2, 1)]

  lemma AllPositionsRowMajor()
    ensures |AllPositions| == 9
    ensures forall i :: 0 <= i < 9 ==> AllPositions[i] == PosAt(i)
  {
  }

  /** No coordinate reads empty exactly when the board is full. */
  lemma FullBoard(b: Board)
    ensures (forall p :: p in AllPositions ==> At(b, p) != None) <==> Empties(b) == 0
  {
    AllPositionsRowMajor();
    if forall p :: p in AllPositions ==> At(b, p) != None {
      forall i | 0 <= i < 9
        ensures b[i] != None
      {
        assert AllPositions[i] in AllPositions;
      }
    }
  }

  /** Every cell is the centre, a corner or a side, so a board whose centre, corners and
      sides are all taken is full. */
  lemma CentreCornersSidesCover(b: Board)
    requires At(b, Pos(1, 1)) != None
    requires forall c :: c in Corners ==> At(b, c) != None
    requires forall c :: c in Sides ==> At(b, c) != None
    ensures Empties(b) == 0
  {
    assert Pos(0, 0) in Corners && Pos(0, 2) in Corners && Pos(2, 0) in Corners && Pos(2, 2) in Corners;
    assert Pos(0, 1) in Sides && Pos(1, 0) in Sides && Pos(1, 2) in Sides && Pos(2, 1) in Sides;
  }

  /** The point-symmetric cell (2 - row, 2 - column). */
  function Opposite(p: Pos): Pos {
    Pos(2 - p.row, 2 - p.col)
  }

  /** Opposite is its own inverse. */
  lemma OppositeInvolutive(p: Pos)
    ensures Opposite(Opposite(p)) == p
  {
  }

  /** The corners are closed under Opposite. */
  lemma OppositeInCorners(c: Pos)
    requires c in Corners
    ensures Opposite(c) in Corners
  {
  }

  /** A winning line: three cells, in the order they are listed. */
  datatype Line = Line(a: Pos, b: Pos, c: Pos)

  /** Three distinct cells of the board. */
  predicate ValidLine(l: Line) {
    ValidPos(l.a) && ValidPos(l.b) && ValidPos(l.c) && l.a != l.b && l.a != l.c && l.b != l.c
  }

  predicate OnLine(p: Pos, l: Line) {
    p == l.a || p == l.b || p == l.c
  }

  /** The eight winning lines, in the order both the evaluator and the two-in-a-row rule
      scan them: rows top to bottom, columns left to right, the main diagonal, then the
      anti-diagonal listed from (2, 0). */
  const Lines: seq<Line> := [
    Line(Pos(0, 0), Pos(0, 1), Pos(0, 2)),
    Line(Pos(1, 0), Pos(1, 1), Pos(1, 2)),
    Line(Pos(2, 0), Pos(2, 1), Pos(2, 2)),
    Line(Pos(0, 0), Pos(1, 0), Pos(2, 0)),
    Line(Pos(0, 1), Pos(1, 1), Pos(2, 1)),
    Line(Pos(0, 2), Pos(1, 2), Pos(2, 2)),
    Line(Pos(0, 0), Pos(1, 1), Pos(2, 2)),
    Line(Pos(2, 0), Pos(1, 1), Pos(0, 2))
  ]

  predicate ValidLines(lines: seq<Line>) {
    forall k :: 0 <= k < |lines| ==> ValidLine(lines[k])
  }

  lemma LinesValid()
    ensures |Lines| == 8 && ValidLines(Lines)
  {
  }

  /** The three cells of a line, in the line's order. */
  function Cells(b: Board, l: Line): (v: seq<Cell>)
    requires ValidLine(l)
    ensures |v| == 3
  {
    [At(b, l.a), At(b, l.b), At(b, l.c)]
  }
}
