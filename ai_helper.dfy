/** The rules the computer opponents are built from: two in a row, fork, centre,
    opposite corner, empty corner, empty side, and the minimax search. */
module AiHelper {
  import opened Grid
  import opened Result

  // ---------------------------------------------------------------- two in a row

  /** s holds two cells of l and the third cell is empty. */
  ghost predicate Threat(b: Board, l: Line, s: Mark, gap: Pos) {
    ValidLine(l) && OnLine(gap, l) && At(b, gap) == None
    && forall q :: OnLine(q, l) && q != gap ==> At(b, q) == Some(s)
  }

  /** How often x occurs among the three values of a line (the list's count). */
  function Count(v: seq<Cell>, x: Cell): nat
    requires |v| == 3
  {
    (if v[0] == x then 1 else 0) + (if v[1] == x then 1 else 0) + (if v[2] == x then 1 else 0)
  }

  /** The per-line test of the two-in-a-row rule: the cell values of l contain s twice and
      None once; the result is then the line's cell that holds None. */
  function Gap(b: Board, l: Line, s: Mark): (r: Option<Pos>)
    requires ValidLine(l)
    ensures r.Some? ==> Threat(b, l, s, r.value)
    ensures r.None? ==> forall p :: !Threat(b, l, s, p)
  {
    var value := Cells(b, l);
    if Count(value, Some(s)) == 2 && Count(value, None) == 1 then
      Some(if value[0] == None then l.a else if value[1] == None then l.b else l.c)
    else None
  }

  /** The scan of the two-in-a-row rule over a list of lines: the gap of the first line
      that s threatens to complete. */
  function TwoInRowFrom(b: Board, s: Mark, lines: seq<Line>): Option<Pos>
    requires ValidLines(lines)
  {
    if lines == [] then None
    else
      var gap := Gap(b, lines[0], s);
      if gap != None then gap else TwoInRowFrom(b, s, lines[1..])
  }

  /** The scan returns a gap of one of the lines, and None exactly when no line is threatened. */
  lemma {:induction false} TwoInRowFromMeaning(b: Board, s: Mark, lines: seq<Line>)
    requires ValidLines(lines)
    ensures TwoInRowFrom(b, s, lines).Some? ==> exists l :: l in lines && Threat(b, l, s, TwoInRowFrom(b, s, lines).value)
    ensures TwoInRowFrom(b, s, lines).None? <==> forall l, p :: l in lines ==> !Threat(b, l, s, p)
  {
    if lines != [] {
      TwoInRowFromMeaning(b, s, lines[1..]);
      assert forall l :: l in lines <==> l == lines[0] || l in lines[1..];
    }
  }

  /** When several lines are threatened, the gap returned is that of the first in list order. */
  lemma {:induction false} FirstThreatWins(b: Board, s: Mark, lines: seq<Line>, j: nat)
    requires ValidLines(lines) && j < |lines| && Gap(b, lines[j], s) != None
    requires forall i :: 0 <= i < j ==> Gap(b, lines[i], s) == None
    ensures TwoInRowFrom(b, s, lines) == Gap(b, lines[j], s)
  {
    if j > 0 {
      FirstThreatWins(b, s, lines[1..], j - 1);
    }
  }

  /** The two-in-a-row rule: an empty cell that completes a line of s, or None. */
  function TwoInRow(b: Board, s: Mark): (r: Option<Pos>)
    ensures r.Some? ==> ValidPos(r.value) && At(b, r.value) == None
    ensures r.Some? ==> exists l :: l in Lines && Threat(b, l, s, r.value)
    ensures r.None? <==> forall l, p :: l in Lines ==> !Threat(b, l, s, p)
  {
    LinesValid();
    TwoInRowFromMeaning(b, s, Lines);
    TwoInRowFrom(b, s, Lines)
  }

  /** A line completed after writing one cell, and not before, passes through that cell. */
  lemma NewLineThroughCell(b: Board, p: Pos, c: Cell, l: Line, m: Mark)
    requires ValidPos(p) && ValidLine(l)
    requires Completes(Put(b, p, c), l, m) && !Completes(b, l, m)
    ensures OnLine(p, l) && c == Some(m)
  {
  }

  /** On a board nobody has won, a mark placed in a cell can only win along a line through
      that cell, and only for the mark placed. */
  lemma NewWinThroughMove(b: Board, p: Pos, s: Mark)
    requires Winner(b) == None && ValidPos(p)
    requires Winner(Put(b, p, Some(s))) != None
    ensures Winner(Put(b, p, Some(s))) == Some(s)
    ensures exists l :: l in Lines && OnLine(p, l) && Completes(Put(b, p, Some(s)), l, s)
  {
    var after := Put(b, p, Some(s));
    WinnerMeaning(after);
    WinnerMeaning(b);
    var w := Winner(after).value;
    LinesValid();
    var l :| l in Lines && Completes(after, l, w);
    assert !HasLine(b, w);
    assert !Completes(b, l, w);
    NewLineThroughCell(b, p, Some(s), l, w);
  }

  /** Filling the gap of a threatened line completes it. */
  lemma ThreatCompletes(b: Board, l: Line, s: Mark, gap: Pos)
    requires Threat(b, l, s, gap)
    ensures Completes(Put(b, gap, Some(s)), l, s)
  {
    assert At(b, l.a) == Some(s) || l.a == gap;
    assert At(b, l.b) == Some(s) || l.b == gap;
    assert At(b, l.c) == Some(s) || l.c == gap;
  }

  /** A line that an empty cell completes for s was threatened by s, with that cell as gap. */
  lemma CompletedWasThreat(b: Board, l: Line, s: Mark, p: Pos)
    requires ValidLine(l) && OnLine(p, l) && At(b, p) == None
    requires Completes(Put(b, p, Some(s)), l, s)
    ensures Threat(b, l, s, p)
  {
    forall q | OnLine(q, l) && q != p
      ensures At(b, q) == Some(s)
    {
      assert At(Put(b, p, Some(s)), q) == Some(s);
    }
  }

  /** p is a move that wins for s at once. */
  ghost predicate WinningMove(b: Board, p: Pos, s: Mark) {
    ValidPos(p) && At(b, p) == None && Winner(Put(b, p, Some(s))) == Some(s)
  }

  /** Any move that wins at once is seen by the two-in-a-row rule. */
  lemma WinningMoveIsSeen(b: Board, s: Mark, p: Pos)
    requires Winner(b) == None && WinningMove(b, p, s)
    ensures TwoInRow(b, s).Some?
  {
    NewWinThroughMove(b, p, s);
    var l :| l in Lines && OnLine(p, l) && Completes(Put(b, p, Some(s)), l, s);
    CompletedWasThreat(b, l, s, p);
  }

  /** The cell the two-in-a-row rule returns wins at once for s. */
  lemma TwoInRowMoveWins(b: Board, s: Mark)
    requires Winner(b) == None && TwoInRow(b, s).Some?
    ensures WinningMove(b, TwoInRow(b, s).value, s)
  {
    var p := TwoInRow(b, s).value;
    var l :| l in Lines && Threat(b, l, s, p);
    ThreatCompletes(b, l, s, p);
    assert HasLine(Put(b, p, Some(s)), s);
    WinnerMeaning(Put(b, p, Some(s)));
    NewWinThroughMove(b, p, s);
  }

  /** On a board nobody has won, the two-in-a-row rule yields a cell exactly when s has a
      move that wins at once, and the cell it yields is such a move. */
  lemma TwoInRowFindsWin(b: Board, s: Mark)
    requires Winner(b) == None
    ensures TwoInRow(b, s).Some? <==> exists p :: WinningMove(b, p, s)
    ensures TwoInRow(b, s).Some? ==> WinningMove(b, TwoInRow(b, s).value, s)
  {
    if TwoInRow(b, s).Some? {
      TwoInRowMoveWins(b, s);
    }
    forall p | WinningMove(b, p, s)
      ensures TwoInRow(b, s).Some?
    {
      WinningMoveIsSeen(b, s, p);
    }
  }

  // ---------------------------------------------------------------- fork

  /** Cell i is empty and writing s into it gives the board a winner (of either mark). */
  predicate WinsAt(b: Board, s: Mark, i: int)
    requires 0 <= i < 9
  {
    b[i] == None && Winner(b[i := Some(s)]) != None
  }

  /** For each of the nine cells, whether WinsAt holds for it. */
  function WinFlags(b: Board, s: Mark): (f: seq<bool>)
    ensures |f| == 9 && forall i :: 0 <= i < 9 ==> f[i] == WinsAt(b, s, i)
  {
    seq(9, i requires 0 <= i < 9 => WinsAt(b, s, i))
  }

  /** How many of the first n flags are set, counted one flag at a time. */
  function CountSet(f: seq<bool>, n: nat): nat
    requires n <= |f|
  {
    if n == 0 then 0 else CountSet(f, n - 1) + (if f[n - 1] then 1 else 0)
  }

  /** The positions among the first n whose flag is set. */
  ghost function SetPositions(f: seq<bool>, n: nat): set<int>
    requires n <= |f|
  {
    set i | 0 <= i < n && f[i]
  }

  /** The running count equals the number of set positions. */
  lemma {:induction false} CountSetIsSize(f: seq<bool>, n: nat)
    requires n <= |f|
    ensures CountSet(f, n) == |SetPositions(f, n)|
  {
    if n == 0 {
      assert SetPositions(f, n) == {};
    } else {
      CountSetIsSize(f, n - 1);
      if f[n - 1] {
        assert SetPositions(f, n) == SetPositions(f, n - 1) + {n - 1};
      } else {
        assert SetPositions(f, n) == SetPositions(f, n - 1);
      }
    }
  }

  /** The counter of the fork rule's inner loop once it has probed the first n cells: it
      counts cells, not lines, so a cell completing two lines at once counts once. */
  function WinningCellCount(b: Board, s: Mark, n: nat): nat
    requires n <= 9
  {
    CountSet(WinFlags(b, s), n)
  }

  /** The counter is the number of cells among the first n that WinsAt holds for. */
  lemma WinningCellCountIsSize(b: Board, s: Mark, n: nat)
    requires n <= 9
    ensures WinningCellCount(b, s, n) == |SetPositions(WinFlags(b, s), n)|
  {
    CountSetIsSize(WinFlags(b, s), n);
  }

  /** Placing s on the empty cell i leaves exactly two empty cells on which s would then
      give the board a winner. */
  predicate CreatesFork(b: Board, s: Mark, i: nat)
    requires i < 9
  {
    b[i] == None && WinningCellCount(b[i := Some(s)], s, 9) == 2
  }

  /** The outer scan of the fork rule from row-major position i on. */
  function FirstForkFrom(b: Board, s: Mark, i: nat): (r: Option<Pos>)
    requires i <= 9
    ensures r.Some? ==> ValidPos(r.value) && i <= Index(r.value) && CreatesFork(b, s, Index(r.value))
    ensures r.None? <==> forall j :: i <= j < 9 ==> !CreatesFork(b, s, j)
    decreases 9 - i
  {
    if i == 9 then None
    else if CreatesFork(b, s, i) then Some(PosAt(i))
    else FirstForkFrom(b, s, i + 1)
  }

  /** The scan returns the first fork-creating cell in row-major order. */
  lemma {:induction false} FirstForkIsFirst(b: Board, s: Mark, i: nat, j: nat)
    requires i <= j < 9 && CreatesFork(b, s, j)
    requires forall k :: i <= k < j ==> !CreatesFork(b, s, k)
    ensures FirstForkFrom(b, s, i) == Some(PosAt(j))
    decreases j - i
  {
    if i < j {
      FirstForkIsFirst(b, s, i + 1, j);
    }
  }

  /** The cell the fork rule picks for s on board b. */
  function ForkCell(b: Board, s: Mark): (r: Option<Pos>)
    ensures r.Some? ==> ValidPos(r.value) && At(b, r.value) == None && CreatesFork(b, s, Index(r.value))
    ensures r.None? <==> forall j :: 0 <= j < 9 ==> !CreatesFork(b, s, j)
  {
    FirstForkFrom(b, s, 0)
  }

  /** The inner loop of the fork rule: each empty cell of the grid is probed by writing s
      into it, asking the evaluator for a winner, and clearing it again; the count of cells
      that gave a winner is returned and the grid ends as it started. */
  method CountWinningCells(grid: array<Cell>, s: Mark) returns (winMove: nat)
    requires grid.Length == 9
    modifies grid
    ensures grid[..] == old(grid[..])
    ensures winMove == WinningCellCount(old(grid[..]), s, 9)
  {
    ghost var probe: Board := grid[..];
    winMove := 0;
    for j := 0 to 9
      invariant grid[..] == probe
      invariant winMove == WinningCellCount(probe, s, j)
    {
      if grid[j] == None {
        grid[j] := Some(s);
        assert grid[..] == probe[j := Some(s)];
        if Winner(grid[..]) != None {
          winMove := winMove + 1;
        }
        grid[j] := None;
        assert grid[..] == probe;
      }
    }
  }

  /** The fork rule on the shared grid: each empty cell is probed by writing s into it,
      counting the empty cells that would then give a winner, and clearing it again; the
      first cell with a count of exactly two is returned. */
  method Fork(grid: array<Cell>, s: Mark) returns (r: Option<Pos>)
    requires grid.Length == 9
    modifies grid
    ensures grid[..] == old(grid[..])
    ensures r == ForkCell(old(grid[..]), s)
  {
    ghost var b: Board := grid[..];
    for i := 0 to 9
      invariant grid[..] == b
      invariant ForkCell(b, s) == FirstForkFrom(b, s, i)
    {
      if grid[i] != None {
        continue;
      }
      grid[i] := Some(s);
      assert grid[..] == b[i := Some(s)];
      var winMove := CountWinningCells(grid, s);
      grid[i] := None;
      assert grid[..] == b;
      if winMove == 2 {
        return Some(PosAt(i));
      }
    }
    return None;
  }

  // ---------------------------------------------------------------- centre and corners

  /** The centre rule: the centre cell when it is empty. */
  function Centre(b: Board): (r: Option<Pos>)
    ensures r.Some? ==> r.value == Pos(1, 1) && At(b, r.value) == None
    ensures r.None? <==> At(b, Pos(1, 1)) != None
  {
    if At(b, Pos(1, 1)) == None then Some(Pos(1, 1)) else None
  }

  /** Corner c holds s and the corner opposite to it is empty. */
  predicate Answers(b: Board, s: Mark, c: Pos) {
    ValidPos(c) && At(b, c) == Some(s) && At(b, Opposite(c)) == None
  }

  /** The scan of the opposite-corner rule over a list of corners: the cell opposite the
      first corner that answers. */
  function OppositeCornerFrom(b: Board, s: Mark, corners: seq<Pos>): Option<Pos> {
    if corners == [] then None
    else if Answers(b, s, corners[0]) then Some(Opposite(corners[0]))
    else OppositeCornerFrom(b, s, corners[1..])
  }

  /** The scan yields the opposite of some corner that answers, and None exactly when no
      corner answers. */
  lemma {:induction false} OppositeCornerFromMeaning(b: Board, s: Mark, corners: seq<Pos>)
    ensures OppositeCornerFrom(b, s, corners).Some? ==>
              exists c :: c in corners && Answers(b, s, c) && OppositeCornerFrom(b, s, corners).value == Opposite(c)
    ensures OppositeCornerFrom(b, s, corners).None? <==> forall c :: c in corners ==> !Answers(b, s, c)
  {
    if corners != [] {
      OppositeCornerFromMeaning(b, s, corners[1..]);
      assert forall c :: c in corners <==> c == corners[0] || c in corners[1..];
    }
  }

  /** When several corners answer, the first in list order decides. */
  lemma {:induction false} FirstAnswerWins(b: Board, s: Mark, corners: seq<Pos>, j: nat)
    requires j < |corners| && Answers(b, s, corners[j])
    requires forall i :: 0 <= i < j ==> !Answers(b, s, corners[i])
    ensures OppositeCornerFrom(b, s, corners) == Some(Opposite(corners[j]))
  {
    if j > 0 {
      FirstAnswerWins(b, s, corners[1..], j - 1);
    }
  }

  /** Over the four corners, a result is an empty corner whose opposite holds s. */
  lemma CornerScanAnswer(b: Board, s: Mark)
    ensures var r := OppositeCornerFrom(b, s, Corners);
            r.Some? ==> r.value in Corners && ValidPos(r.value) && At(b, r.value) == None && At(b, Opposite(r.value)) == Some(s)
  {
    OppositeCornerFromMeaning(b, s, Corners);
    var r := OppositeCornerFrom(b, s, Corners);
    if r.Some? {
      var c :| c in Corners && Answers(b, s, c) && r.value == Opposite(c);
      OppositeInvolutive(c);
      OppositeInCorners(c);
    }
  }

  /** The opposite-corner rule: an empty corner whose opposite corner holds s, taken
      opposite the first of (0,0), (0,2), (2,0), (2,2) that qualifies. */
  function OppositeCorner(b: Board, s: Mark): (r: Option<Pos>)
    ensures r.Some? ==> r.value in Corners && ValidPos(r.value) && At(b, r.value) == None && At(b, Opposite(r.value)) == Some(s)
    ensures r.None? <==> forall c :: c in Corners ==> !Answers(b, s, c)
  {
    OppositeCornerFromMeaning(b, s, Corners);
    CornerScanAnswer(b, s);
    OppositeCornerFrom(b, s, Corners)
  }

  /** random.choice over the candidate cells that are empty, built up in candidate order;
      None when none is empty. Only membership is modelled, not the distribution. */
  method ChooseEmpty(b: Board, candidates: seq<Pos>) returns (r: Option<Pos>)
    requires forall p :: p in candidates ==> ValidPos(p)
    ensures r.Some? ==> r.value in candidates && At(b, r.value) == None
    ensures r.None? <==> forall p :: p in candidates ==> At(b, p) != None
  {
    var empty: seq<Pos> := [];
    for k := 0 to |candidates|
      invariant forall p :: p in empty <==> p in candidates[..k] && At(b, p) == None
    {
      if At(b, candidates[k]) == None {
        empty := empty + [candidates[k]];
      }
    }
    assert candidates[..|candidates|] == candidates;
    if empty == [] {
      r := None;
    } else {
      assert empty[0] in empty;
      var p :| p in empty;
      r := Some(p);
    }
  }

  /** The empty-corner rule: a random empty corner, or None. */
  method EmptyCorner(b: Board) returns (r: Option<Pos>)
    ensures r.Some? ==> r.value in Corners && At(b, r.value) == None
    ensures r.None? <==> forall c :: c in Corners ==> At(b, c) != None
  {
    r := ChooseEmpty(b, Corners);
  }

  /** The empty-side rule: a random empty edge cell, or None. */
  method EmptySide(b: Board) returns (r: Option<Pos>)
    ensures r.Some? ==> r.value in Sides && At(b, r.value) == None
    ensures r.None? <==> forall c :: c in Sides ==> At(b, c) != None
  {
    r := ChooseEmpty(b, Sides);
  }

  // ---------------------------------------------------------------- minimax

  /** The mark placed at a level of the search: ai on maximising levels, player otherwise. */
  function Mover(player: Mark, ai: Mark, isMax: bool): Mark {
    if isMax then ai else player
  }

  /** One step of the fold over the children: the running best (None before the first
      child, where the source starts from -inf or +inf) combined with the next score. */
  function Combine(isMax: bool, best: Option<int>, current: int): (r: int)
    ensures best.None? ==> r == current
    ensures best.Some? && isMax ==> r >= current && r >= best.value && (r == current || r == best.value)
    ensures best.Some? && !isMax ==> r <= current && r <= best.value && (r == current || r == best.value)
  {
    match best
    case None => current
    case Some(v) => if isMax then (if current > v then current else v) else (if current < v then current else v)
  }

  /** The fold of the search loop over a list of child scores in order, None standing for
      a filled cell that the loop skips: None while no score has been met, the running
      maximum (or minimum) after. */
  function FoldBest(isMax: bool, scores: seq<Option<int>>): (r: Option<int>)
    ensures r.Some? <==> exists i :: 0 <= i < |scores| && scores[i].Some?
  {
    if scores == [] then None
    else
      var best := FoldBest(isMax, scores[..|scores| - 1]);
      var last := scores[|scores| - 1];
      if last.None? then best else Some(Combine(isMax, best, last.value))
  }

  /** The fold yields one of the scores, and that score is at least (maximising) or at most
      (minimising) every score in the list. */
  lemma {:induction false} FoldBestIsExtremum(isMax: bool, scores: seq<Option<int>>)
    ensures FoldBest(isMax, scores).Some? ==> exists i :: 0 <= i < |scores| && scores[i] == FoldBest(isMax, scores)
    ensures forall i :: 0 <= i < |scores| && scores[i].Some? ==>
              if isMax then scores[i].value <= FoldBest(isMax, scores).value
              else FoldBest(isMax, scores).value <= scores[i].value
  {
    if scores != [] {
      var init := scores[..|scores| - 1];
      FoldBestIsExtremum(isMax, init);
      assert forall i :: 0 <= i < |init| ==> init[i] == scores[i];
    }
  }

  /** The minimax score of board b: 10 - depth when ai has won, -10 + depth when player has
      won, 0 on a full board, and otherwise the best score over the empty cells, each filled
      by the mover and searched one level deeper with the roles swapped. */
  function MinimaxScore(b: Board, player: Mark, ai: Mark, isMax: bool, depth: int): int
    decreases Empties(b), 2
  {
    var winner := Winner(b);
    if winner == Some(ai) then 10 - depth
    else if winner == Some(player) then -10 + depth
    else if Tie(b) then 0
    else
      var best := FoldBest(isMax, ChildScores(b, player, ai, isMax, depth, 9));
      if best.Some? then best.value else assert false; 0
  }

  /** The score of the child reached by filling the empty cell i. */
  function ChildScore(b: Board, player: Mark, ai: Mark, isMax: bool, depth: int, i: int): int
    requires 0 <= i < 9 && b[i] == None
    decreases Empties(b), 0
  {
    EmptiesPlace(b, i, Mover(player, ai, isMax));
    MinimaxScore(b[i := Some(Mover(player, ai, isMax))], player, ai, !isMax, depth + 1)
  }

  /** The scores the search loop meets on the first n cells in row-major order: the child's
      score for an empty cell, None for a filled one. */
  function ChildScores(b: Board, player: Mark, ai: Mark, isMax: bool, depth: int, n: nat): (s: seq<Option<int>>)
    requires n <= 9
    ensures |s| == n && forall i :: 0 <= i < n ==> (s[i].Some? <==> b[i] == None)
    decreases Empties(b), 1, n
  {
    if n == 0 then []
    else
      ChildScores(b, player, ai, isMax, depth, n - 1)
      + [if b[n - 1] == None then Some(ChildScore(b, player, ai, isMax, depth, n - 1)) else None]
  }

  /** The entry for cell i is that child's score. */
  lemma {:induction false} ChildScoresAt(b: Board, player: Mark, ai: Mark, isMax: bool, depth: int, n: nat, i: int)
    requires 0 <= i < n <= 9 && b[i] == None
    ensures ChildScores(b, player, ai, isMax, depth, n)[i] == Some(ChildScore(b, player, ai, isMax, depth, i))
  {
    if i < n - 1 {
      ChildScoresAt(b, player, ai, isMax, depth, n - 1, i);
    }
  }

  /** One step of the search loop: the fold over the first i + 1 cells is the fold over
      the first i, combined with cell i's score when that cell is empty. */
  lemma ChildScoresStep(b: Board, player: Mark, ai: Mark, isMax: bool, depth: int, i: nat)
    requires i < 9
    ensures var before := FoldBest(isMax, ChildScores(b, player, ai, isMax, depth, i));
            FoldBest(isMax, ChildScores(b, player, ai, isMax, depth, i + 1)) ==
              if b[i] == None then Some(Combine(isMax, before, ChildScore(b, player, ai, isMax, depth, i))) else before
  {
    var next := ChildScores(b, player, ai, isMax, depth, i + 1);
    assert next[..i] == ChildScores(b, player, ai, isMax, depth, i);
  }

  /** On a board with no winner that is not full, the minimax score is the score of one of
      the children, and the largest (isMax) or smallest of them. */
  lemma MinimaxIsExtremum(b: Board, player: Mark, ai: Mark, isMax: bool, depth: int)
    requires Winner(b) != Some(ai) && Winner(b) != Some(player) && !Tie(b)
    ensures exists i :: 0 <= i < 9 && b[i] == None && MinimaxScore(b, player, ai, isMax, depth) == ChildScore(b, player, ai, isMax, depth, i)
    ensures forall i {:trigger ChildScore(b, player, ai, isMax, depth, i)} :: 0 <= i < 9 && b[i] == None ==>
              if isMax then ChildScore(b, player, ai, isMax, depth, i) <= MinimaxScore(b, player, ai, isMax, depth)
              else MinimaxScore(b, player, ai, isMax, depth) <= ChildScore(b, player, ai, isMax, depth, i)
  {
    var scores := ChildScores(b, player, ai, isMax, depth, 9);
    FoldBestIsExtremum(isMax, scores);
    var j :| 0 <= j < 9 && scores[j] == FoldBest(isMax, scores);
    ChildScoresAt(b, player, ai, isMax, depth, 9, j);
    forall i | 0 <= i < 9 && b[i] == None
      ensures if isMax then ChildScore(b, player, ai, isMax, depth, i) <= MinimaxScore(b, player, ai, isMax, depth)
              else MinimaxScore(b, player, ai, isMax, depth) <= ChildScore(b, player, ai, isMax, depth, i)
    {
      ChildScoresAt(b, player, ai, isMax, depth, 9, i);
    }
  }

  /** The search depth plus the number of empty cells stays constant along the search, so
      with depth + empties <= 10 every score lies within 10 - depth of zero; at depth >= 0 it
      is within [-10, 10], and the infinite starting values never come out. */
  lemma {:induction false} MinimaxBounded(b: Board, player: Mark, ai: Mark, isMax: bool, depth: int)
    requires depth + Empties(b) <= 10
    ensures -(10 - depth) <= MinimaxScore(b, player, ai, isMax, depth) <= 10 - depth
    decreases Empties(b), 1
  {
    if Winner(b) != Some(ai) && Winner(b) != Some(player) && !Tie(b) {
      MinimaxIsExtremum(b, player, ai, isMax, depth);
      var i :| 0 <= i < 9 && b[i] == None && MinimaxScore(b, player, ai, isMax, depth) == ChildScore(b, player, ai, isMax, depth, i);
      ChildBounded(b, player, ai, isMax, depth, i);
    }
  }

  /** Each child is one level deeper with one empty cell fewer, so its score is bounded
      by 10 - (depth + 1). */
  lemma {:induction false} ChildBounded(b: Board, player: Mark, ai: Mark, isMax: bool, depth: int, i: int)
    requires 0 <= i < 9 && b[i] == None && depth + Empties(b) <= 10
    ensures -(10 - depth - 1) <= ChildScore(b, player, ai, isMax, depth, i) <= 10 - depth - 1
    decreases Empties(b), 0
  {
    EmptiesPlace(b, i, Mover(player, ai, isMax));
    MinimaxBounded(b[i := Some(Mover(player, ai, isMax))], player, ai, !isMax, depth + 1);
  }

  /** Away from the leaves, some cell is empty, so the fold over the children has a value,
      and that value is the score. */
  lemma MinimaxInner(b: Board, player: Mark, ai: Mark, isMax: bool, depth: int)
    requires Winner(b) != Some(ai) && Winner(b) != Some(player) && !Tie(b)
    ensures FoldBest(isMax, ChildScores(b, player, ai, isMax, depth, 9)).Some?
    ensures MinimaxScore(b, player, ai, isMax, depth) == FoldBest(isMax, ChildScores(b, player, ai, isMax, depth, 9)).value
  {
  }

  /** The search on the shared grid: a won or full board is scored at once; otherwise each
      empty cell is filled by the mover, searched one level deeper, and cleared again. The
      grid ends as it started. */
  method Minimax(grid: array<Cell>, player: Mark, ai: Mark, isMax: bool, depth: int) returns (bestScore: int)
    requires grid.Length == 9
    modifies grid
    ensures grid[..] == old(grid[..])
    ensures bestScore == MinimaxScore(old(grid[..]), player, ai, isMax, depth)
    decreases Empties(grid[..]), 1
  {
    var winner := Winner(grid[..]);
    if winner == Some(ai) {
      return 10 - depth;
    } else if winner == Some(player) {
      return -10 + depth;
    } else if Tie(grid[..]) {
      return 0;
    }
    MinimaxInner(grid[..], player, ai, isMax, depth);
    var best := SearchChildren(grid, player, ai, isMax, depth);
    bestScore := best.value;
  }

  /** The loop of the search: over the cells in row-major order, each empty one is filled by
      the mover, scored one level deeper and cleared, and the running maximum (or minimum)
      is kept; None stands for the starting value minus (or plus) infinity. */
  method SearchChildren(grid: array<Cell>, player: Mark, ai: Mark, isMax: bool, depth: int) returns (best: Option<int>)
    requires grid.Length == 9
    modifies grid
    ensures grid[..] == old(grid[..])
    ensures best == FoldBest(isMax, ChildScores(old(grid[..]), player, ai, isMax, depth, 9))
    decreases Empties(grid[..]), 0
  {
    ghost var b: Board := grid[..];
    best := None;
    for i := 0 to 9
      invariant grid[..] == b
      invariant best == FoldBest(isMax, ChildScores(b, player, ai, isMax, depth, i))
    {
      ChildScoresStep(b, player, ai, isMax, depth, i);
      if grid[i] != None {
        continue;
      }
      var mover := Mover(player, ai, isMax);
      grid[i] := Some(mover);
      assert grid[..] == b[i := Some(mover)];
      EmptiesPlace(b, i, mover);
      var currentScore := Minimax(grid, player, ai, !isMax, depth + 1);
      grid[i] := None;
      assert grid[..] == b;
      assert currentScore == ChildScore(b, player, ai, isMax, depth, i);
      best := Some(Combine(isMax, best, currentScore));
    }
  }
}
